/**
 * Whole runs of the server, from its constructor: every run of the schedule that a program can
 * cause, and three runs that end badly.
 */
module TimerRuns {
  import opened Common
  import opened TimerSchedule
  import opened DeltaList
  import opened TimerCells
  import opened TimerCallbacks
  import opened TimerHistory
  import opened TimerServer

  // ---------- every proper run is a run of the server ----------

  function InitObjs<T>(e: Event<T>): set<T> {
    if e.Init? then {e.obj} else {}
  }

  // The initialised timers after an event.
  lemma NextKeys<T>(s: Schedule<T>, e: Event<T>)
    requires ProperEvent(s, e)
    ensures s.Next(e).reload.Keys == s.reload.Keys + InitObjs(e)
  {
    hide Complete, Rounds;
    match e
    case Init(t, callback) =>
    case Tick =>
    case Call(c) => ObeyKeys(s, c);
    case Interrupt(scripts) =>
      forall i, c | 0 <= i < |scripts| && c in scripts[i]
        ensures c.obj in s.Expired().reload
      {
        assert ProperCall(s, c);
      }
      ScriptsKeys(s.Expired(), scripts);
  }

  lemma ObeyKeys<T>(s: Schedule<T>, c: Command<T>)
    requires c.obj in s.reload
    ensures s.Obeyed(c).reload.Keys == s.reload.Keys
  {
  }

  lemma {:induction false} ScriptKeys<T>(s: Schedule<T>, commands: seq<Command<T>>)
    requires forall c :: c in commands ==> c.obj in s.reload
    ensures RunScript(s, commands).reload.Keys == s.reload.Keys
  {
    if commands != [] {
      var n := |commands| - 1;
      ScriptKeys(s, commands[..n]);
      ObeyKeys(RunScript(s, commands[..n]), commands[n]);
    }
  }

  lemma {:induction false} ScriptsKeys<T>(s: Schedule<T>, scripts: seq<seq<Command<T>>>)
    requires forall i, c :: 0 <= i < |scripts| && c in scripts[i] ==> c.obj in s.reload
    ensures RunScripts(s, scripts).reload.Keys == s.reload.Keys
  {
    hide RunScript;
    if scripts != [] {
      var n := |scripts| - 1;
      ScriptsKeys(s, scripts[..n]);
      ScriptKeys(RunScripts(s, scripts[..n]), scripts[n]);
    }
  }

  lemma NextNow<T>(s: Schedule<T>, e: Event<T>)
    ensures s.now <= s.Next(e).now
  {
    hide RunScripts;
  }

  lemma {:induction false} RunNow<T>(s: Schedule<T>, events: seq<Event<T>>, m: nat)
    requires m <= |events|
    ensures Run(s, events[..m]).now <= Run(s, events).now
    decreases |events|
  {
    hide Schedule.Next;
    if m == |events| {
      assert events[..m] == events;
    } else {
      var n := |events| - 1;
      assert events[..n][..m] == events[..m];
      RunNow(s, events[..n], m);
      NextNow(Run(s, events[..n]), events[n]);
    }
  }

  // A call or an interrupt comes while the ticks since the last TimerHwStart, and the lead, fit 32
  // bits, or the hardware counts for no timer.
  predicate Readable<T(==)>(s: Schedule<T>, e: Event<T>) {
    (e.Call? || e.Interrupt?) && s.queue != [] ==> s.now - s.programmed + s.lead < WORD_LIMIT
  }

  predicate Legible<T(==)>(s: Schedule<T>, events: seq<Event<T>>) {
    forall m :: 0 <= m < |events| ==> Readable(Run(s, events[..m]), events[m])
  }

  // A run that is short enough as a whole is legible.
  lemma ShortRun<T>(s: Schedule<T>, events: seq<Event<T>>)
    requires Run(s, events).now + s.lead < WORD_LIMIT
    ensures Legible(s, events)
  {
    hide Run;
    forall m | 0 <= m < |events|
      ensures Readable(Run(s, events[..m]), events[m])
    {
      RunNow(s, events, m);
      RunLead(s, events[..m]);
    }
  }

  lemma ReadableExact(server: Server, e: Event<TimerEvent>)
    requires server.Valid() && !server.serving && (e.Call? || e.Interrupt?) && Readable(server.spec, e)
    ensures server.ReadingExact()
  {
    hide Encodes, Chain;
    server.LinkedKnown();
  }

  // What an admissible event needs of the server.
  lemma ProperAdmissible(server: Server, e: Event<TimerEvent>)
    requires server.Valid() && ProperEvent(server.spec, e) && server.timers == server.callable == server.spec.reload.Keys
    requires !server.serving && Readable(server.spec, e)
    ensures server.Admissible(e)
  {
    hide Encodes, Complete;
    if e.Call? || e.Interrupt? {
      ReadableExact(server, e);
    }
    match e
    case Init(obj, callback) => server.Pends(obj);
    case Tick =>
    case Call(c) =>
    case Interrupt(scripts) =>
      forall i, c | 0 <= i < |scripts| && c in scripts[i]
        ensures c.obj in server.timers
      {
        assert ProperCall(server.spec, c);
      }
  }

  // A server goes through every run in which the program uses initialised timers only and starts
  // timers only after giving them a value, as long as the readings fit 32 bits.  It makes the
  // callbacks of the run.
  method Replay(lead: Word, minimum: Word, events: seq<Event<TimerEvent>>, ghost objs: set<TimerEvent>)
    returns (server: Server)
    requires Proper(Boot<TimerEvent>(lead, minimum), events)
    requires Legible(Boot<TimerEvent>(lead, minimum), events)
    requires forall i :: 0 <= i < |events| ==> InitObjs(events[i]) <= objs
    modifies objs
    ensures fresh(server) && server.Valid() && !server.serving
    ensures server.lead == lead && server.minimum == minimum
    ensures server.spec == Run(Boot<TimerEvent>(lead, minimum), events)
    ensures server.called == CallLog(Boot<TimerEvent>(lead, minimum), events)
  {
    hide Server.Valid, Server.Admissible, Server.Registered, Schedule.Next, ProperEvent, Run, CallLog, Served, Stamp, Callers, Readable;
    ghost var boot := Boot<TimerEvent>(lead, minimum);
    StartRun(boot);
    server := new Server(lead, minimum);
    NoCalls(boot);
    for i := 0 to |events|
      invariant server.Valid() && !server.serving && fresh(server)
      invariant server.lead == lead && server.minimum == minimum
      invariant server.spec == Run(boot, events[..i]) && server.called == CallLog(boot, events[..i])
      invariant server.timers == server.callable == server.spec.reload.Keys && server.timers <= objs
    {
      ProperAdmissible(server, events[i]);
      NextKeys(server.spec, events[i]);
      InitsCallable(server.spec, events[i]);
      LastCalls(boot, events[..i], events[i]);
      assert events[..i + 1] == events[..i] + [events[i]];
      ghost var served, callable := Served(server.spec, events[i]), server.callable;
      server.Perform(events[i]);
      CallersAll(served, callable);
    }
    assert events[..|events|] == events;
  }

  lemma NoCalls<T>(s: Schedule<T>)
    ensures CallLog(s, []) == []
  {
  }

  lemma InitsCallable<T>(s: Schedule<T>, e: Event<T>)
    requires ProperEvent(s, e)
    ensures e.Init? ==> e.callback
  {
  }

  // ---------- early callbacks ----------

  lemma {:induction false} FlickersInit<T>(lead: nat, least: nat, rest: nat, y: T)
    requires lead > 0
    ensures forall i :: 0 <= i < |Flickers(lead, least, rest, y)| ==> InitObjs(Flickers(lead, least, rest, y)[i]) == {}
    decreases rest
  {
    if rest > least {
      FlickersInit(lead, least, Flickered(lead, least, rest), y);
    }
  }

  lemma EarliestInit<T>(lead: nat, minimum: Word, v: Word, x: T, y: T)
    requires lead > 0
    ensures var events := EarliestEvents(lead, minimum, v, x, y);
            forall i :: 0 <= i < |events| ==> InitObjs(events[i]) <= {x, y}
  {
    hide Flickers;
    FlickersInit(lead, minimum, v - Min(lead, v), y);
  }

  // The run of EarliestRun on a server: for every board with a lead, a timer of any value is called
  // back after at most minimum ticks (one tick if that is 0).
  method EarliestOnServer(lead: Word, minimum: Word, v: Word, a: TimerEvent, b: TimerEvent) returns (server: Server)
    requires lead > 0 && v >= minimum && a != b && lead + minimum + 2 < WORD_LIMIT
    modifies a, b
    ensures server.Valid() && !server.serving && server.lead == lead && server.minimum == minimum
    ensures fresh(server) && server.spec == Run(Boot(lead, minimum), EarliestEvents(lead, minimum, v, a, b))
    ensures var fired := server.spec.fired;
            && |fired| == 1 && fired[0].entry.obj == a && fired[0].entry.reload == v
            && fired[0].at - fired[0].entry.started <= (if minimum == 0 then 1 else minimum)
            && (v >= 2 ==> fired[0].at - fired[0].entry.started < v)
            && server.called == [Callback(a, fired[0].at)]
  {
    hide Run, Proper, Flickers, OnCourse, CallLog, Served, Straight, Legible, Opening, Ticks, Server.Valid;
    EarliestInit(lead, minimum, v, a, b);
    var events := EarliestEvents(lead, minimum, v, a, b);
    EarliestRun(lead, minimum, v, a, b);
    ShortRun(Boot<TimerEvent>(lead, minimum), events);
    server := Replay(lead, minimum, events, {a, b});
  }

  // The run of StrayRun on a server whose reading is exact: the callback of a starts both timers,
  // and the walk calls b back at once, although b is due only v ticks later.
  method StrayOnServer(minimum: Word, v: Word, a: TimerEvent, b: TimerEvent) returns (server: Server)
    requires v > 0 && v >= minimum && a != b && v + 1 < WORD_LIMIT
    modifies a, b
    ensures fresh(server) && server.Valid() && !server.serving && server.lead == 0 && server.minimum == minimum
    ensures server.spec == Run(Boot(0, minimum), StrayEvents(v, a, b))
    ensures server.called == [Callback(a, server.spec.now), Callback(b, server.spec.now)]
    ensures server.spec.DueOf(b) == Some(server.spec.now + v)
  {
    hide Run, Proper, CallLog, Legible, NeverEarly, Server.Valid;
    var events := StrayEvents(v, a, b);
    StrayRun(minimum, v, a, b);
    ShortRun(Boot<TimerEvent>(0, minimum), events);
    server := Replay(0, minimum, events, {a, b});
  }

  // ---------- the 32-bit reading ----------

  // The events so far have led the server here.
  ghost predicate Reached(server: Server, events: seq<Event<TimerEvent>>)
    reads server
  {
    server.spec == Run(Boot(server.lead, server.minimum), events)
  }

  // Outside ReadingExact a long overdue head comes to life again, and TimerStop then adds two
  // numbers that need not fit 32 bits.  For every board and every value h this run of the server
  // gets there: start a timer of h ticks, leave its interrupt unserved until the reading is about
  // to wrap, start a timer of 2^32 - 1 ticks, and let one more tick pass.
  method LateReadingOverflows(lead: Word, minimum: Word, h: Word, a: TimerEvent, b: TimerEvent)
    returns (server: Server, ghost events: seq<Event<TimerEvent>>)
    requires h > 0 && h >= minimum && a != b
    modifies a, b
    ensures server.Valid() && !server.serving && server.lead == lead && server.minimum == minimum
    ensures fresh(server) && Reached(server, events)
    ensures server.listHead != null && server.listHead.isRunning && server.listHead.next != null
    ensures ReadRemaining(server.listHead.timestamp, server.Elapsed()) + server.listHead.next.timestamp >= WORD_LIMIT
  {
    hide Server.Registered, Slot, IndexOf, Run;
    server, events := TwoTimers(lead, minimum, h, a, b);
    server.RegisteredAs(a);
    RunLast(Boot(lead, minimum), events, Call(Start(a)));
    events := events + [Call(Start(a))];
    server.TimerStart(a);
    events := Wait(server, a, events);
    events := Follow(server, a, b, events);
  }

  // A server with two timers, of h and of 2^32 - 1 ticks.
  method TwoTimers(lead: Word, minimum: Word, h: Word, a: TimerEvent, b: TimerEvent)
    returns (server: Server, ghost events: seq<Event<TimerEvent>>)
    requires h >= minimum && a != b
    modifies a, b
    ensures fresh(server) && server.Valid() && !server.serving && server.lead == lead && server.minimum == minimum
    ensures server.nodes == [] && server.timers == {a, b} && Reached(server, events)
    ensures a.reloadValue == h && b.reloadValue == WORD_LIMIT - 1
  {
    hide Server.Valid, Run, IndexOf, Slot;
    ghost var boot := Boot<TimerEvent>(lead, minimum);
    events := [];
    StartRun(boot);
    server := new Server(lead, minimum);
    server.Pends(a);
    RunLast(boot, events, Init(a, true));
    events := events + [Init(a, true)];
    server.Initialise(a, true);
    server.Pends(b);
    RunLast(boot, events, Init(b, true));
    events := events + [Init(b, true)];
    server.Initialise(b, true);
    events := Give(server, a, h, events);
    events := Give(server, b, WORD_LIMIT - 1, events);
  }

  // A value for a timer of a server whose list is empty.
  method Give(server: Server, t: TimerEvent, value: Word, ghost before: seq<Event<TimerEvent>>)
    returns (ghost events: seq<Event<TimerEvent>>)
    requires server.Valid() && !server.serving && server.nodes == [] && t in server.timers
    requires Reached(server, before) && value >= server.minimum
    modifies server, t
    ensures server.Valid() && !server.serving && server.nodes == [] && server.timers == old(server.timers)
    ensures Reached(server, events) && t.reloadValue == value
  {
    hide Server.Valid, Run, IndexOf, Slot;
    server.LinkedKnown();
    SpecMinimum(server);
    RunLast(Boot(server.lead, server.minimum), before, Call(SetValue(t, value)));
    events := before + [Call(SetValue(t, value))];
    server.TimerSetValue(t, value);
  }

  lemma SpecMinimum(server: Server)
    requires server.Valid()
    ensures server.spec.minimum == server.minimum
  {
  }

  // Until one tick before the reading wraps.
  method Wait(server: Server, a: TimerEvent, ghost before: seq<Event<TimerEvent>>)
    returns (ghost events: seq<Event<TimerEvent>>)
    requires server.Valid() && !server.serving && server.nodes == [a] && server.Elapsed() <= WORD_LIMIT - 1
    requires Reached(server, before)
    modifies server`ticks, server`gaps, server`spec
    ensures server.Valid() && !server.serving && server.Elapsed() == WORD_LIMIT - 1
    ensures Reached(server, events)
  {
    hide Server.Valid, Run;
    events := before;
    while server.Elapsed() < WORD_LIMIT - 1
      invariant server.Valid() && server.Elapsed() <= WORD_LIMIT - 1 && Reached(server, events)
    {
      RunLast(Boot(server.lead, server.minimum), events, Tick);
      events := events + [Tick];
      server.TimerIncrementTickCounter();
    }
  }

  method Follow(server: Server, a: TimerEvent, b: TimerEvent, ghost before: seq<Event<TimerEvent>>)
    returns (ghost events: seq<Event<TimerEvent>>)
    requires server.Valid() && !server.serving && server.nodes == [a] && b in server.timers && a != b
    requires a.timestamp > 0 && server.Elapsed() == WORD_LIMIT - 1 && b.reloadValue == WORD_LIMIT - 1
    requires Reached(server, before)
    modifies server, server.timers
    ensures server.Valid() && !server.serving && Reached(server, events)
    ensures server.listHead != null && server.listHead.isRunning && server.listHead.next != null
    ensures ReadRemaining(server.listHead.timestamp, server.Elapsed()) + server.listHead.next.timestamp >= WORD_LIMIT
  {
    hide Encodes, Server.Registered, Slot, IndexOf, Run;
    ghost var boot := Boot<TimerEvent>(server.lead, server.minimum);
    server.RegisteredAs(b);
    BehindOverdue(server.spec, server.nodes, server.gaps, b);
    RunLast(boot, before, Call(Start(b)));
    RunLast(boot, before + [Call(Start(b))], Tick);
    events := before + [Call(Start(b))] + [Tick];
    server.TimerStart(b);
    SecondOfTwo(server);
    server.TimerIncrementTickCounter();
  }

  lemma BehindOverdue<T>(s: Schedule<T>, objs: seq<T>, gaps: seq<nat>, b: T)
    requires Encodes(s.queue, s.now, objs, gaps) && |objs| == 1 && objs[0] != b && gaps[0] == 0
    ensures s.PlaceOf(b) == 1 && s.Started(b).queue == [s.queue[0], s.NewEntry(b)]
    ensures s.queue[0].due == s.now
  {
    assert EncodesAt(s.queue, s.now, objs, gaps, 0);
    SlotUnique(s.queue, s.now + s.Reload(b), 1);
  }

  lemma SecondOfTwo(server: Server)
    requires server.Valid() && |server.spec.queue| == 2
    ensures server.listHead != null && server.listHead.next == server.spec.queue[1].obj
    ensures server.listHead.next.timestamp == server.spec.queue[1].due - server.spec.queue[0].due
  {
    assert EncodesAt(server.spec.queue, server.ticks, server.nodes, server.gaps, 1);
    assert server.nodes[0].next == server.nodes[1];
    assert server.nodes[1].timestamp == server.gaps[1];
  }
}
