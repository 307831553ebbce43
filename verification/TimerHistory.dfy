/**
 * When callbacks run: which callbacks a run makes, their lateness in terms of the run that led to
 * them, and how early one can be.
 */
module TimerHistory {
  import opened Arithmetic
  import opened Common
  import opened TimerCallbacks
  import opened TimerSchedule
  import opened TimerTheorems

  // ---------- two counts over a run ----------

  // The number of ticks that pass while an overdue head waits for its interrupt.
  function OverdueTicks<T(==)>(s: Schedule<T>, events: seq<Event<T>>): nat {
    if events == [] then 0
    else
      var n := |events| - 1;
      OverdueTicks(s, events[..n]) + if events[n].Tick? && Run(s, events[..n]).Overdue() then 1 else 0
  }

  lemma {:induction false} WaitedIsOverdueTicks<T>(s: Schedule<T>, events: seq<Event<T>>)
    ensures Run(s, events).waited == s.waited + OverdueTicks(s, events)
  {
    if events != [] {
      WaitedIsOverdueTicks(s, events[..|events| - 1]);
    }
  }

  // The TimerHwStart calls of a run, each given by the ticks that it brings the deadlines forward.
  function CommandForwards<T(==)>(s: Schedule<T>, c: Command<T>): seq<nat> {
    match c
    case Start(t) => StartForwards(s, t)
    case Stop(t) => StopForwards(s, t)
    case Reset(t) => StopForwards(s, t) + StartForwards(s.Stopped(t), t)
    case SetValue(t, v) => StopForwards(s, t)
  }

  function ScriptForwards<T(==)>(s: Schedule<T>, commands: seq<Command<T>>): seq<nat> {
    if commands == [] then []
    else
      var n := |commands| - 1;
      ScriptForwards(s, commands[..n]) + CommandForwards(RunScript(s, commands[..n]), commands[n])
  }

  function ScriptsForwards<T(==)>(s: Schedule<T>, scripts: seq<seq<Command<T>>>): seq<nat> {
    if scripts == [] then []
    else
      var n := |scripts| - 1;
      ScriptsForwards(s, scripts[..n]) + ScriptForwards(RunScripts(s, scripts[..n]), scripts[n])
  }

  // The last step of an interrupt; it moves nothing if a callback has started the head already.
  function ResumeForwards<T(==)>(s: Schedule<T>): seq<nat> {
    if s.queue == [] then [] else if s.running then [0] else [Min(s.lead, Monus(s.queue[0].due, s.now))]
  }

  function EventForwards<T(==)>(s: Schedule<T>, e: Event<T>): seq<nat> {
    match e
    case Init(t, _) => []
    case Tick => []
    case Call(c) => CommandForwards(s, c)
    case Interrupt(scripts) =>
      if s.queue == [] then []
      else
        ScriptsForwards(s.Expired(), scripts)
        + ResumeForwards(RunScripts(s.Expired(), scripts))
  }

  function Forwards<T(==)>(s: Schedule<T>, events: seq<Event<T>>): seq<nat> {
    if events == [] then []
    else
      var n := |events| - 1;
      Forwards(s, events[..n]) + EventForwards(Run(s, events[..n]), events[n])
  }

  lemma Append(h: seq<nat>, h1: seq<nat>, h2: seq<nat>, a: seq<nat>, b: seq<nat>)
    requires h1 == h + a && h2 == h1 + b
    ensures h2 == h + (a + b)
  {
  }

  lemma CommandForwardsOnly<T>(s: Schedule<T>, c: Command<T>)
    ensures s.Obeyed(c).hwStarts == s.hwStarts + CommandForwards(s, c)
  {
    hide StartForwards, StopForwards;
    match c
    case Start(t) => StartForwardsOnly(s, t);
    case Stop(t) => StopForwardsOnly(s, t);
    case Reset(t) => StopForwardsOnly(s, t); StartForwardsOnly(s.Stopped(t), t);
    case SetValue(t, v) => StopForwardsOnly(s, t);
  }

  lemma {:induction false} ScriptForwardsOnly<T>(s: Schedule<T>, commands: seq<Command<T>>)
    ensures RunScript(s, commands).hwStarts == s.hwStarts + ScriptForwards(s, commands)
  {
    hide CommandForwards;
    if commands != [] {
      var n := |commands| - 1;
      var r, c := RunScript(s, commands[..n]), commands[n];
      ScriptForwardsOnly(s, commands[..n]);
      CommandForwardsOnly(r, c);
      Append(s.hwStarts, r.hwStarts, r.Obeyed(c).hwStarts, ScriptForwards(s, commands[..n]), CommandForwards(r, c));
    }
  }

  lemma {:induction false} ScriptsForwardsOnly<T>(s: Schedule<T>, scripts: seq<seq<Command<T>>>)
    ensures RunScripts(s, scripts).hwStarts == s.hwStarts + ScriptsForwards(s, scripts)
  {
    hide ScriptForwards, RunScript;
    if scripts != [] {
      var n := |scripts| - 1;
      ScriptsForwardsOnly(s, scripts[..n]);
      ScriptForwardsOnly(RunScripts(s, scripts[..n]), scripts[n]);
    }
  }

  lemma EventForwardsOnly<T>(s: Schedule<T>, e: Event<T>)
    ensures s.Next(e).hwStarts == s.hwStarts + EventForwards(s, e)
  {
    hide CommandForwards, ScriptsForwards, RunScripts;
    match e
    case Init(t, _) =>
    case Tick =>
    case Call(c) => CommandForwardsOnly(s, c);
    case Interrupt(scripts) => ScriptsForwardsOnly(s.Expired(), scripts);
  }

  lemma {:induction false} HwStartsAreForwards<T>(s: Schedule<T>, events: seq<Event<T>>)
    ensures Run(s, events).hwStarts == s.hwStarts + Forwards(s, events)
  {
    hide EventForwards;
    if events != [] {
      var n := |events| - 1;
      var r, e := Run(s, events[..n]), events[n];
      HwStartsAreForwards(s, events[..n]);
      EventForwardsOnly(r, e);
      Append(s.hwStarts, r.hwStarts, r.Next(e).hwStarts, Forwards(s, events[..n]), EventForwards(r, e));
    }
  }

  // ---------- where an entry comes from ----------

  // The same start, perhaps with another deadline.
  predicate SameStart<T(==)>(a: Pending<T>, b: Pending<T>) {
    b == a.(due := b.due)
  }

  predicate CarriedFrom<T(==)>(q: seq<Pending<T>>, e: Pending<T>) {
    exists j :: 0 <= j < |q| && SameStart(q[j], e)
  }

  // b follows a within one tick, and e is pending in b: it was pending in a or started since.
  predicate Origin<T(==)>(a: Schedule<T>, b: Schedule<T>, e: Pending<T>) {
    if e.serial < a.starts then CarriedFrom(a.queue, e)
    else
      && e.started == a.now && e.waitedThen == a.waited
      && e.serial < b.starts && |a.hwStarts| <= e.hwStartsThen <= |b.hwStarts|
  }

  predicate Follows<T(==)>(a: Schedule<T>, b: Schedule<T>) {
    && a.starts <= b.starts && |a.hwStarts| <= |b.hwStarts|
    && (forall i :: 0 <= i < |b.queue| ==> Origin(a, b, b.queue[i]))
  }

  predicate SerialsBelow<T(==)>(s: Schedule<T>) {
    forall i :: 0 <= i < |s.queue| ==> s.queue[i].serial < s.starts
  }

  lemma KeepsFollows<T>(a: Schedule<T>, b: Schedule<T>)
    requires SerialsBelow(a) && a.starts <= b.starts && |a.hwStarts| <= |b.hwStarts|
    requires forall i :: 0 <= i < |b.queue| ==> CarriedFrom(a.queue, b.queue[i])
    ensures Follows(a, b) && SerialsBelow(b)
  {
    forall i | 0 <= i < |b.queue|
      ensures Origin(a, b, b.queue[i]) && b.queue[i].serial < b.starts
    {
      var j :| 0 <= j < |a.queue| && SameStart(a.queue[j], b.queue[i]);
    }
  }

  lemma FollowsOn<T>(a: Schedule<T>, b: Schedule<T>, c: Schedule<T>)
    requires Follows(a, b) && Follows(b, c) && a.now == b.now && a.waited == b.waited
    ensures Follows(a, c)
  {
    forall i | 0 <= i < |c.queue|
      ensures Origin(a, c, c.queue[i])
    {
      var e := c.queue[i];
      assert Origin(b, c, e);
      if e.serial < b.starts {
        var j :| 0 <= j < |b.queue| && SameStart(b.queue[j], e);
        assert Origin(a, b, b.queue[j]);
        if e.serial < a.starts {
          var k :| 0 <= k < |a.queue| && SameStart(a.queue[k], b.queue[j]);
          assert SameStart(a.queue[k], e);
        }
      }
    }
  }

  lemma ReprogramFollows<T>(s: Schedule<T>)
    requires SerialsBelow(s)
    ensures Follows(s, s.Reprogrammed()) && SerialsBelow(s.Reprogrammed())
  {
    var s' := s.Reprogrammed();
    forall i | 0 <= i < |s'.queue|
      ensures CarriedFrom(s.queue, s'.queue[i])
    {
      assert SameStart(s.queue[i], s'.queue[i]);
    }
    KeepsFollows(s, s');
  }

  lemma InsertFollows<T>(s: Schedule<T>, t: T)
    requires SerialsBelow(s)
    ensures Follows(s, s.Inserted(t)) && SerialsBelow(s.Inserted(t))
  {
    var s', p := s.Inserted(t), s.PlaceOf(t);
    forall i | 0 <= i < |s'.queue|
      ensures Origin(s, s', s'.queue[i]) && s'.queue[i].serial < s'.starts
    {
      if i != p {
        assert SameStart(s.queue[if i < p then i else i - 1], s'.queue[i]);
      }
    }
  }

  lemma RemoveFollows<T>(s: Schedule<T>, i: nat)
    requires SerialsBelow(s) && i < |s.queue|
    ensures Follows(s, s.Removed(i)) && SerialsBelow(s.Removed(i))
  {
    var s' := s.Removed(i);
    forall k | 0 <= k < |s'.queue|
      ensures CarriedFrom(s.queue, s'.queue[k])
    {
      assert SameStart(s.queue[if k < i then k else k + 1], s'.queue[k]);
    }
    KeepsFollows(s, s');
  }

  lemma SelfFollows<T>(s: Schedule<T>)
    requires SerialsBelow(s)
    ensures Follows(s, s)
  {
    forall i | 0 <= i < |s.queue|
      ensures CarriedFrom(s.queue, s.queue[i])
    {
      assert SameStart(s.queue[i], s.queue[i]);
    }
    KeepsFollows(s, s);
  }

  lemma StartFollows<T>(s: Schedule<T>, t: T)
    requires SerialsBelow(s)
    ensures Follows(s, s.Started(t)) && SerialsBelow(s.Started(t))
  {
    SelfFollows(s);
    InsertFollows(s, t);
    var r := s.Inserted(t).(running := true);
    ReprogramFollows(r);
    FollowsOn(s, r, r.Reprogrammed());
  }

  lemma StopFollows<T>(s: Schedule<T>, t: T)
    requires SerialsBelow(s)
    ensures Follows(s, s.Stopped(t)) && SerialsBelow(s.Stopped(t))
  {
    SelfFollows(s);
    var i := IndexOf(s.queue, t);
    if i < |s.queue| {
      RemoveFollows(s, i);
      var r := s.Removed(i);
      ReprogramFollows(r);
      FollowsOn(s, r, r.Reprogrammed());
    }
  }

  lemma ObeyFollows<T>(s: Schedule<T>, c: Command<T>)
    requires SerialsBelow(s)
    ensures Follows(s, s.Obeyed(c)) && SerialsBelow(s.Obeyed(c))
  {
    match c
    case Start(t) => StartFollows(s, t);
    case Stop(t) => StopFollows(s, t);
    case Reset(t) =>
      StopFollows(s, t);
      StartFollows(s.Stopped(t), t);
      FollowsOn(s, s.Stopped(t), s.Stopped(t).Started(t));
    case SetValue(t, v) => StopFollows(s, t);
  }

  lemma {:induction false} ScriptFollows<T>(s: Schedule<T>, commands: seq<Command<T>>)
    requires SerialsBelow(s)
    ensures Follows(s, RunScript(s, commands)) && SerialsBelow(RunScript(s, commands))
  {
    hide Follows, SerialsBelow;
    if commands == [] {
      SelfFollows(s);
    } else {
      var n := |commands| - 1;
      ScriptFollows(s, commands[..n]);
      var r := RunScript(s, commands[..n]);
      ObeyFollows(r, commands[n]);
      FollowsOn(s, r, r.Obeyed(commands[n]));
    }
  }

  lemma {:induction false} ScriptsFollow<T>(s: Schedule<T>, scripts: seq<seq<Command<T>>>)
    requires SerialsBelow(s)
    ensures Follows(s, RunScripts(s, scripts)) && SerialsBelow(RunScripts(s, scripts))
  {
    hide Follows, SerialsBelow, RunScript;
    if scripts == [] {
      SelfFollows(s);
    } else {
      var n := |scripts| - 1;
      ScriptsFollow(s, scripts[..n]);
      var r := RunScripts(s, scripts[..n]);
      ScriptFollows(r, scripts[n]);
      FollowsOn(s, r, RunScript(r, scripts[n]));
    }
  }

  lemma ExpireFollows<T>(s: Schedule<T>)
    requires SerialsBelow(s)
    ensures Follows(s, s.Expired()) && SerialsBelow(s.Expired())
  {
    var s', k := s.Expired(), s.DueCount();
    forall i | 0 <= i < |s'.queue|
      ensures CarriedFrom(s.queue, s'.queue[i])
    {
      assert SameStart(s.queue[k + i], s'.queue[i]);
    }
    KeepsFollows(s, s');
  }

  lemma ResumeFollows<T>(s: Schedule<T>)
    requires SerialsBelow(s)
    ensures Follows(s, s.Resumed()) && SerialsBelow(s.Resumed())
  {
    SelfFollows(s);
    ReprogramFollows(s);
  }

  lemma InterruptFollows<T>(s: Schedule<T>, scripts: seq<seq<Command<T>>>)
    requires SerialsBelow(s) && s.queue != []
    ensures Follows(s, s.Interrupted(scripts)) && SerialsBelow(s.Interrupted(scripts))
  {
    hide Follows, SerialsBelow, RunScripts;
    var a := s.Expired();
    var b := RunScripts(a, scripts);
    ExpireFollows(s);
    ScriptsFollow(a, scripts);
    ResumeFollows(b);
    FollowsOn(s, a, b);
    FollowsOn(s, b, b.Resumed());
  }

  lemma TickFollows<T>(s: Schedule<T>)
    requires SerialsBelow(s)
    ensures Follows(s, s.Ticked()) && SerialsBelow(s.Ticked())
  {
    var s' := s.Ticked();
    forall i | 0 <= i < |s'.queue|
      ensures CarriedFrom(s.queue, s'.queue[i])
    {
      assert SameStart(s.queue[i], s'.queue[i]);
    }
    KeepsFollows(s, s');
  }

  lemma NextFollows<T>(s: Schedule<T>, e: Event<T>)
    requires SerialsBelow(s)
    ensures Follows(s, s.Next(e)) && SerialsBelow(s.Next(e))
  {
    SelfFollows(s);
    match e
    case Init(t, _) =>
    case Tick => TickFollows(s);
    case Call(c) => ObeyFollows(s, c);
    case Interrupt(scripts) =>
      if s.queue != [] {
        InterruptFollows(s, scripts);
      }
  }

  lemma {:induction false} RunSerials<T>(lead: nat, minimum: Word, events: seq<Event<T>>)
    ensures SerialsBelow(Run(Boot<T>(lead, minimum), events))
  {
    if events != [] {
      var n := |events| - 1;
      RunSerials<T>(lead, minimum, events[..n]);
      NextFollows(Run(Boot<T>(lead, minimum), events[..n]), events[n]);
    }
  }

  // Event m of the run contains the start of e, and e bears the marks of that moment.
  predicate BornIn<T(==)>(s: Schedule<T>, events: seq<Event<T>>, m: nat, e: Pending<T>) {
    && m < |events|
    && var a, b := Run(s, events[..m]), Run(s, events[..m + 1]);
       && a.starts <= e.serial < b.starts
       && e.started == a.now && e.waitedThen == a.waited
       && |a.hwStarts| <= e.hwStartsThen <= |b.hwStarts|
  }

  lemma {:induction false} Birth<T>(lead: nat, minimum: Word, events: seq<Event<T>>, i: nat) returns (m: nat)
    requires i < |Run(Boot<T>(lead, minimum), events).queue|
    ensures BornIn(Boot<T>(lead, minimum), events, m, Run(Boot<T>(lead, minimum), events).queue[i])
  {
    var s, n := Boot<T>(lead, minimum), |events| - 1;
    assert events != [];
    assert events[..n + 1] == events;
    var r, e := Run(s, events[..n]), Run(s, events).queue[i];
    RunSerials<T>(lead, minimum, events[..n]);
    NextFollows(r, events[n]);
    assert Origin(r, Run(s, events), e);
    if e.serial < r.starts {
      var j :| 0 <= j < |r.queue| && SameStart(r.queue[j], e);
      m := Birth<T>(lead, minimum, events[..n], j);
      Longer(s, events, n, m, Run(s, events[..n]).queue[j], e);
    } else {
      m := n;
    }
  }

  lemma Longer<T>(s: Schedule<T>, events: seq<Event<T>>, n: nat, m: nat, a: Pending<T>, b: Pending<T>)
    requires n <= |events| && BornIn(s, events[..n], m, a) && SameStart(a, b)
    ensures BornIn(s, events, m, b)
  {
    assert events[..n][..m] == events[..m] && events[..n][..m + 1] == events[..m + 1];
  }

  // Event n of the run is the interrupt that fires f, as number j of the log.
  predicate FiredIn<T(==)>(s: Schedule<T>, events: seq<Event<T>>, n: nat, f: Firing<T>, j: nat) {
    && n < |events| && events[n].Interrupt?
    && |Run(s, events[..n]).fired| <= j < |Run(s, events[..n + 1]).fired|
    && var r := Run(s, events[..n]);
       f == Firing(f.entry, r.now, r.waited, |r.hwStarts|) && f.entry in r.queue
  }

  lemma NextFires<T>(s: Schedule<T>, e: Event<T>, j: nat)
    requires j < |s.Next(e).fired|
    ensures j < |s.fired| ==> s.Next(e).fired[j] == s.fired[j]
    ensures j >= |s.fired| ==>
              && e.Interrupt? && s.Next(e).fired[j].entry in s.queue
              && s.Next(e).fired[j] == Firing(s.Next(e).fired[j].entry, s.now, s.waited, |s.hwStarts|)
  {
    hide RunScripts;
    assert s.queue != [] && e.Interrupt? ==> s.Next(e).fired == s.Expired().fired;
  }

  lemma {:induction false} Service<T>(s: Schedule<T>, events: seq<Event<T>>, j: nat) returns (n: nat)
    requires s.fired == [] && j < |Run(s, events).fired|
    ensures FiredIn(s, events, n, Run(s, events).fired[j], j)
  {
    var last := |events| - 1;
    var r, e := Run(s, events[..last]), events[last];
    NextFires(r, e, j);
    if j < |r.fired| {
      n := Service(s, events[..last], j);
      assert events[..last][..n] == events[..n] && events[..last][..n + 1] == events[..n + 1];
    } else {
      n := last;
      assert events[..n + 1] == events;
    }
  }

  lemma BootForwards<T>(lead: nat, minimum: Word, events: seq<Event<T>>)
    ensures Run(Boot<T>(lead, minimum), events).hwStarts == Forwards(Boot<T>(lead, minimum), events)
  {
    hide Forwards, Run;
    HwStartsAreForwards(Boot<T>(lead, minimum), events);
  }

  // The deadline of a pending entry in terms of the run.
  lemma Ledger<T>(lead: nat, minimum: Word, events: seq<Event<T>>, e: Pending<T>)
    requires e in Run(Boot<T>(lead, minimum), events).queue
    ensures var s := Boot<T>(lead, minimum);
            && e.hwStartsThen <= |Forwards(s, events)|
            && e.due == e.started + e.reload + OverdueTicks(s, events) - e.waitedThen
                        - Sum(Forwards(s, events)[e.hwStartsThen..])
            && e.reload == Run(s, events).Reload(e.obj)
  {
    hide Run, Forwards, OverdueTicks, Sum;
    var s := Boot<T>(lead, minimum);
    BootSound<T>(lead, minimum);
    RunSound(s, events);
    WaitedIsOverdueTicks(s, events);
    BootForwards(lead, minimum, events);
    assert Honest(Run(s, events), e);
  }

  // Every TimerHwStart counts for at most lead ticks.
  lemma ForwardsLimited<T>(lead: nat, minimum: Word, events: seq<Event<T>>, k: nat)
    requires k <= |Forwards(Boot<T>(lead, minimum), events)|
    ensures Sum(Forwards(Boot<T>(lead, minimum), events)[k..])
            <= lead * (|Forwards(Boot<T>(lead, minimum), events)| - k)
  {
    hide Run, Forwards, Sum;
    var s := Boot<T>(lead, minimum);
    BootSound<T>(lead, minimum);
    RunSound(s, events);
    RunLead(s, events);
    BootForwards(lead, minimum, events);
    SumFromBounded(Forwards(s, events), k, lead);
  }

  lemma {:induction false} RunLead<T>(s: Schedule<T>, events: seq<Event<T>>)
    ensures Run(s, events).lead == s.lead
  {
    if events != [] {
      RunLead(s, events[..|events| - 1]);
    }
  }

  // The timestamps that the ledger keeps are those of the run.
  lemma BirthMarks<T>(lead: nat, minimum: Word, events: seq<Event<T>>, m: nat, e: Pending<T>)
    requires BornIn(Boot<T>(lead, minimum), events, m, e)
    ensures var s := Boot<T>(lead, minimum);
            && e.waitedThen == OverdueTicks(s, events[..m])
            && |Forwards(s, events[..m])| <= e.hwStartsThen <= |Forwards(s, events[..m + 1])|
  {
    var s := Boot<T>(lead, minimum);
    WaitedIsOverdueTicks(s, events[..m]);
    HwStartsAreForwards(s, events[..m]);
    HwStartsAreForwards(s, events[..m + 1]);
  }

  // Start event m, interrupt n and the re-programmings from position k on explain the tick
  // of f, which is number j of the log.
  predicate Explained<T(==)>(s: Schedule<T>, events: seq<Event<T>>, f: Firing<T>, j: nat, m: nat, n: nat, k: nat) {
    && m < n < |events| && events[n].Interrupt?
    && |Run(s, events[..n]).fired| <= j < |Run(s, events[..n + 1]).fired|
    && Run(s, events[..m]).starts <= f.entry.serial < Run(s, events[..m + 1]).starts
    && |Forwards(s, events[..m])| <= k <= |Forwards(s, events[..m + 1])|
    && k <= |Forwards(s, events[..n])|
    && f.entry.started == Run(s, events[..m]).now
    && f.entry.reload == Run(s, events[..n]).Reload(f.entry.obj)
    && f.entry.started <= f.at == Run(s, events[..n]).now
    && f.at == f.entry.started + f.entry.reload
               + OverdueTicks(s, events[..n]) - OverdueTicks(s, events[..m])
               - Sum(Forwards(s, events[..n])[k..])
  }

  // Exact lateness.  A firing comes from a start in some event m and an interrupt n of the run.
  // It happens at start + ReloadValue, plus the ticks between m and n in which an overdue head was
  // waiting, minus what the TimerHwStart calls since the start brought forward: their list runs
  // from position k, within event m, to interrupt n, and none of them counts for more than lead.
  // If every walk of the run is on course, this is the lateness of callback number j.
  lemma ExactLateness<T>(lead: nat, minimum: Word, events: seq<Event<T>>, j: nat)
    returns (m: nat, n: nat, k: nat)
    requires j < |Run(Boot<T>(lead, minimum), events).fired|
    ensures var s := Boot<T>(lead, minimum);
            && Explained(s, events, Run(s, events).fired[j], j, m, n, k)
            && Sum(Forwards(s, events[..n])[k..]) <= lead * (|Forwards(s, events[..n])| - k)
    ensures Straight(Boot<T>(lead, minimum), events) ==> CalledBack(Boot<T>(lead, minimum), events, j)
  {
    hide Run, Forwards, OverdueTicks, Sum;
    var s := Boot<T>(lead, minimum);
    var f := Run(s, events).fired[j];
    n := Service(s, events, j);
    Ledger(lead, minimum, events[..n], f.entry);
    FiredAtDue(lead, minimum, events, j);
    m := BirthOf(lead, minimum, events, n, f.entry);
    BirthMarks(lead, minimum, events, m, f.entry);
    k := f.entry.hwStartsThen;
    ForwardsLimited(lead, minimum, events[..n], k);
    CalledIfStraight(s, events, j);
  }

  lemma FiredAtDue<T>(lead: nat, minimum: Word, events: seq<Event<T>>, j: nat)
    requires j < |Run(Boot<T>(lead, minimum), events).fired|
    ensures var f := Run(Boot<T>(lead, minimum), events).fired[j]; f.entry.started <= f.at == f.entry.due
  {
    BootSound<T>(lead, minimum);
    RunSound(Boot<T>(lead, minimum), events);
    var r := Run(Boot<T>(lead, minimum), events);
    assert Settled(r, r.fired[j]);
  }

  lemma BirthOf<T>(lead: nat, minimum: Word, events: seq<Event<T>>, n: nat, e: Pending<T>) returns (m: nat)
    requires n <= |events| && e in Run(Boot<T>(lead, minimum), events[..n]).queue
    ensures m < n && BornIn(Boot<T>(lead, minimum), events, m, e)
  {
    var s := Boot<T>(lead, minimum);
    var r := Run(s, events[..n]);
    var i :| 0 <= i < |r.queue| && r.queue[i] == e;
    m := Birth(lead, minimum, events[..n], i);
    Longer(s, events, n, m, e, e);
  }

  // ---------- the callbacks of a run ----------

  // Every callback of a run of timers that have one, in order.
  function CallLog<T(==)>(s: Schedule<T>, events: seq<Event<T>>): seq<Callback<T>> {
    if events == [] then []
    else
      var n := |events| - 1;
      var r := Run(s, events[..n]);
      CallLog(s, events[..n]) + Stamp(Served(r, events[n]), r.now)
  }

  // Every walk of the run is on course.
  predicate Straight<T(==)>(s: Schedule<T>, events: seq<Event<T>>) {
    forall m :: 0 <= m < |events| && events[m].Interrupt? ==> OnCourse(Run(s, events[..m]), events[m].scripts)
  }

  function Due<T>(log: seq<Firing<T>>): seq<Callback<T>> {
    seq(|log|, j requires 0 <= j < |log| => Callback(log[j].entry.obj, log[j].at))
  }

  lemma NextCalls<T>(s: Schedule<T>, e: Event<T>)
    requires e.Interrupt? ==> OnCourse(s, e.scripts)
    ensures Due(s.Next(e).fired) == Due(s.fired) + Stamp(Served(s, e), s.now)
  {
    hide OnCourse, Complete, RunScripts, Slot;
    if e.Interrupt? {
      OnCourseServes(s, e.scripts);
    }
  }

  // On course the callbacks of a run are exactly its firings: every expired start is called back
  // once, at the tick of the interrupt that takes it off, and nothing else is.
  lemma {:induction false} CallsAreFirings<T>(s: Schedule<T>, events: seq<Event<T>>)
    requires s.fired == [] && Straight(s, events)
    ensures CallLog(s, events) == Due(Run(s, events).fired)
  {
    hide Served, Schedule.Next, OnCourse;
    if events != [] {
      var n := |events| - 1;
      assert Straight(s, events[..n]) by {
        forall m | 0 <= m < n && events[..n][m].Interrupt?
          ensures OnCourse(Run(s, events[..n][..m]), events[..n][m].scripts)
        {
          assert events[..n][..m] == events[..m];
        }
      }
      CallsAreFirings(s, events[..n]);
      NextCalls(Run(s, events[..n]), events[n]);
    }
  }

  // Callback number j belongs to firing number j.
  predicate CalledBack<T(==)>(s: Schedule<T>, events: seq<Event<T>>, j: nat) {
    && j < |CallLog(s, events)| == |Run(s, events).fired|
    && var f := Run(s, events).fired[j]; CallLog(s, events)[j] == Callback(f.entry.obj, f.at)
  }

  lemma CalledIfStraight<T>(s: Schedule<T>, events: seq<Event<T>>, j: nat)
    requires s.fired == [] && j < |Run(s, events).fired|
    ensures Straight(s, events) ==> CalledBack(s, events, j)
  {
    hide Run, Straight, CallLog;
    if Straight(s, events) {
      CallsAreFirings(s, events);
    }
  }

  // ---------- early or not ----------

  // With an exact reading a firing is late by the overdue ticks since its start, never early, and
  // so is the callback if every walk is on course.
  lemma ExactWithoutLead<T>(minimum: Word, events: seq<Event<T>>, j: nat) returns (m: nat, n: nat)
    requires j < |Run(Boot<T>(0, minimum), events).fired|
    ensures var s, f := Boot<T>(0, minimum), Run(Boot<T>(0, minimum), events).fired[j];
            && m < n < |events| && f.entry.started == Run(s, events[..m]).now && f.at == Run(s, events[..n]).now
            && f.at - f.entry.started - f.entry.reload
               == OverdueTicks(s, events[..n]) - OverdueTicks(s, events[..m]) >= 0
    ensures Straight(Boot<T>(0, minimum), events) ==> CalledBack(Boot<T>(0, minimum), events, j)
  {
    hide Run, Forwards, OverdueTicks, Sum, Straight, CalledBack;
    var k;
    m, n, k := ExactLateness(0, minimum, events, j);
    OverdueGrows(Boot<T>(0, minimum), events, m, n);
  }

  // Served promptly, a server without lead is exact to the tick.
  lemma PromptRunExact<T>(minimum: Word, events: seq<Event<T>>, j: nat)
    requires OverdueTicks(Boot<T>(0, minimum), events) == 0
    requires j < |Run(Boot<T>(0, minimum), events).fired|
    ensures var f := Run(Boot<T>(0, minimum), events).fired[j]; f.at == f.entry.started + f.entry.reload
    ensures Straight(Boot<T>(0, minimum), events) ==> CalledBack(Boot<T>(0, minimum), events, j)
  {
    hide Run, OverdueTicks, Straight, CalledBack;
    var m, n := ExactWithoutLead(minimum, events, j);
    OverdueGrows(Boot<T>(0, minimum), events, m, |events|);
    OverdueGrows(Boot<T>(0, minimum), events, n, |events|);
    assert events[..|events|] == events;
  }

  lemma {:induction false} OverdueGrows<T>(s: Schedule<T>, events: seq<Event<T>>, m: nat, n: nat)
    requires m <= n <= |events|
    ensures OverdueTicks(s, events[..m]) <= OverdueTicks(s, events[..n])
  {
    if m < n {
      OverdueGrows(s, events, m, n - 1);
      assert events[..n][..n - 1] == events[..n - 1];
    }
  }

  // ---------- runs of a program that keeps the rules ----------

  // Only initialised timers are used, and only timers that have been given a value are started;
  // every timer has a callback.
  predicate ProperCall<T(==)>(s: Schedule<T>, c: Command<T>) {
    c.obj in s.reload && (c.Start? || c.Reset? ==> s.Reload(c.obj) >= s.minimum)
  }

  predicate ProperEvent<T(==)>(s: Schedule<T>, e: Event<T>) {
    match e
    case Init(t, callback) => s.DueOf(t) == None && callback
    case Tick => true
    case Call(c) => ProperCall(s, c)
    case Interrupt(scripts) =>
      Complete(s, scripts) && forall i, c :: 0 <= i < |scripts| && c in scripts[i] ==> ProperCall(s, c)
  }

  predicate Proper<T(==)>(s: Schedule<T>, events: seq<Event<T>>) {
    forall m :: 0 <= m < |events| ==> ProperEvent(Run(s, events[..m]), events[m])
  }

  lemma ProperLast<T>(s: Schedule<T>, events: seq<Event<T>>, e: Event<T>)
    requires Proper(s, events) && ProperEvent(Run(s, events), e)
    ensures Proper(s, events + [e]) && Run(s, events + [e]) == Run(s, events).Next(e)
    ensures Straight(s, events) && (e.Interrupt? ==> OnCourse(Run(s, events), e.scripts)) ==> Straight(s, events + [e])
  {
    hide ProperEvent, OnCourse;
    RunLast(s, events, e);
    var longer := events + [e];
    forall m | 0 <= m < |longer|
      ensures ProperEvent(Run(s, longer[..m]), longer[m])
    {
      assert longer[..m] == events[..m];
      assert m == |events| ==> events[..m] == events;
    }
    if Straight(s, events) && (e.Interrupt? ==> OnCourse(Run(s, events), e.scripts)) {
      forall m | 0 <= m < |longer| && longer[m].Interrupt?
        ensures OnCourse(Run(s, longer[..m]), longer[m].scripts)
      {
        assert longer[..m] == events[..m];
        assert m == |events| ==> events[..m] == events;
      }
    }
  }

  // ---------- how early a callback can be ----------

  // Starting and stopping a shorter timer in the same tick brings a pending one forward twice: by
  // up to lead ticks for the new head, and again for the old one.
  lemma Flicker<T>(s: Schedule<T>, y: T)
    requires Sound(s) && s.queue != [] && s.running && s.DueOf(y) == None
    requires s.now + s.Reload(y) < s.queue[0].due
    ensures var f := Min(s.lead, s.Reload(y));
            var g := Min(s.lead, s.queue[0].due - s.now - f);
            && s.Started(y).Stopped(y).queue == Advanced(Advanced(s.queue, f), g)
            && s.Started(y).Stopped(y).running
  {
    var f := Min(s.lead, s.Reload(y));
    var s1 := s.Started(y);
    assert s.Inserted(y).queue[0] == s.NewEntry(y);
    assert s.Inserted(y).queue[1..] == s.queue;
    assert s1.queue[1..] == Advanced(s.queue, f);
    assert IndexOf(s1.queue, y) == 0 && s1.running;
    assert s1.Removed(0).queue == s1.queue[1..];
  }

  // A timer that is not shorter moves nothing.
  lemma NoFlicker<T>(s: Schedule<T>, y: T)
    requires Sound(s) && s.queue != [] && s.DueOf(y) == None
    requires s.now + s.Reload(y) >= s.queue[0].due
    ensures s.Started(y).Stopped(y).queue == s.queue
  {
    hide Sound;
    InsertSound(s, y);
    var s1, p := s.Inserted(y), s.PlaceOf(y);
    assert s1.queue[p] == s.NewEntry(y);
    DueAt(s1, p);
    assert s1.Removed(p).queue == s.queue;
  }

  // Only timer x is pending, since this tick and for another rest ticks; y is idle.
  predicate Lone<T(==)>(s: Schedule<T>, x: T, y: T, v: Word, w: Word, rest: nat) {
    && |s.queue| == 1 && s.fired == [] && s.running && x != y
    && s.reload == map[x := v, y := w]
    && s.queue[0].obj == x && s.queue[0].reload == v
    && s.queue[0].started == s.now && s.queue[0].due == s.now + rest
  }

  // What a flicker of y leaves of the rest of x.
  function Flickered(lead: nat, least: nat, rest: nat): nat
    requires rest > least
  {
    rest - Min(lead, least) - Min(lead, rest - Min(lead, least))
  }

  lemma FlickerLone<T>(s: Schedule<T>, x: T, y: T, v: Word, w: Word, rest: nat)
    requires Lone(s, x, y, v, w, rest) && Sound(s) && rest > w
    ensures Lone(s.Started(y).Stopped(y), x, y, v, w, Flickered(s.lead, w, rest))
    ensures Sound(s.Started(y).Stopped(y)) && s.Started(y).DueOf(y) != None
  {
    hide Sound;
    Flicker(s, y);
    StartSound(s, y);
    StopSound(s.Started(y), y);
    assert s.Inserted(y).queue[0] == s.NewEntry(y);
  }

  function Flickers<T>(lead: nat, least: nat, rest: nat, y: T): seq<Event<T>>
    requires lead > 0
    decreases rest
  {
    if rest <= least then [] else [Call(Start(y)), Call(Stop(y))] + Flickers(lead, least, Flickered(lead, least, rest), y)
  }

  // What is left when the flickers of y have stopped helping.
  function LeastRest(lead: nat, least: nat, rest: nat): (r: nat)
    requires lead > 0
    ensures r <= least && r <= rest
    decreases rest
  {
    if rest <= least then rest else LeastRest(lead, least, Flickered(lead, least, rest))
  }

  lemma {:induction false} FlickersRun<T>(s: Schedule<T>, events: seq<Event<T>>, x: T, y: T, v: Word, w: Word, rest: nat)
    requires s.lead > 0 && Proper(s, events) && Straight(s, events) && w >= s.minimum
    requires Lone(Run(s, events), x, y, v, w, rest) && Sound(Run(s, events))
    ensures var all := events + Flickers(s.lead, w, rest, y);
            && Proper(s, all) && Straight(s, all) && Sound(Run(s, all)) && Run(s, all).now == Run(s, events).now
            && Lone(Run(s, all), x, y, v, w, LeastRest(s.lead, w, rest))
    decreases rest
  {
    hide Sound, Run, Proper, Straight;
    var r := Run(s, events);
    RunLead(s, events);
    RunMinimum(s, events);
    if rest <= w {
      assert events + Flickers(s.lead, w, rest, y) == events;
    } else {
      var a, b := Call(Start(y)), Call(Stop(y));
      FlickerLone(r, x, y, v, w, rest);
      ProperLast(s, events, a);
      ProperLast(s, events + [a], b);
      var rest' := Flickered(s.lead, w, rest);
      FlickersRun(s, events + [a] + [b], x, y, v, w, rest');
      assert events + Flickers(s.lead, w, rest, y) == events + [a] + [b] + Flickers(s.lead, w, rest', y);
    }
  }

  function Ticks<T>(n: nat): seq<Event<T>> {
    seq(n, _ => Tick)
  }

  // x has been pending for age ticks and is not overdue.
  predicate Aged<T(==)>(s: Schedule<T>, x: T, v: Word, age: nat, rest: nat) {
    && |s.queue| == 1 && s.fired == []
    && s.queue[0].obj == x && s.queue[0].reload == v
    && s.queue[0].started + age == s.now && s.queue[0].due == s.now + rest
  }

  lemma {:induction false} TicksRun<T>(s: Schedule<T>, events: seq<Event<T>>, n: nat, x: T, v: Word, age: nat, rest: nat)
    requires Proper(s, events) && Straight(s, events)
    requires Aged(Run(s, events), x, v, age, rest) && n <= (if rest == 0 then 1 else rest)
    ensures Proper(s, events + Ticks(n)) && Straight(s, events + Ticks(n))
    ensures Run(s, events + Ticks(n)).now == Run(s, events).now + n
    ensures Run(s, events + Ticks(n)).reload == Run(s, events).reload
    ensures Aged(Run(s, events + Ticks(n)), x, v, age + n, Monus(rest, n))
  {
    hide Proper, Straight, Run;
    if n == 0 {
      assert events + Ticks<T>(0) == events;
    } else {
      TicksRun(s, events, n - 1, x, v, age, rest);
      ProperLast(s, events + Ticks(n - 1), Tick);
      assert events + Ticks<T>(n - 1) + [Tick] == events + Ticks<T>(n);
    }
  }

  // One timer is due and its callback makes no calls: the walk serves it and ends.
  lemma LoneFires<T>(s: Schedule<T>, x: T, v: Word, age: nat)
    requires Aged(s, x, v, age, 0)
    ensures OnCourse(s, [[]]) && Complete(s, [[]]) && Served(s, Interrupt([[]])) == [x]
    ensures var r := s.Interrupted([[]]);
            && |r.fired| == 1 && r.fired[0].entry.obj == x && r.fired[0].entry.reload == v
            && r.fired[0].at == r.fired[0].entry.started + age
  {
    var scripts: seq<seq<Command<T>>> := [[]];
    assert s.DueCount() == 1 && scripts[..0] == [] && scripts[..1] == scripts;
    assert DueObjs(s) == [x] && x in DueObjs(s);
    assert Rounds(s, []) == Begin(s);
    assert Rounds(s, scripts) == Round(Begin(s), []);
    assert LeadsOn(s, scripts);
    OnCourseCompletes(s, scripts);
    assert s.Interrupted(scripts).fired == s.Expired().fired;
  }

  function Opening<T>(v: Word, w: Word, x: T, y: T): seq<Event<T>> {
    [Init(x, true), Init(y, true), Call(SetValue(x, v)), Call(SetValue(y, w)), Call(Start(x))]
  }

  // Start x, let y flicker as long as that helps, and serve x when it is due, a tick later at least.
  function EarliestEvents<T>(lead: nat, minimum: Word, v: Word, x: T, y: T): seq<Event<T>>
    requires lead > 0
  {
    var rest := LeastRest(lead, minimum, v - Min(lead, v));
    Opening(v, minimum, x, y) + Flickers(lead, minimum, v - Min(lead, v), y)
    + Ticks(if rest == 0 then 1 else rest) + [Interrupt([[]])]
  }

  lemma OpeningRun<T>(lead: nat, minimum: Word, v: Word, w: Word, x: T, y: T)
    requires v >= minimum && w >= minimum && x != y
    ensures var s, events := Boot<T>(lead, minimum), Opening(v, w, x, y);
            && Proper(s, events) && Straight(s, events)
            && Run(s, events).now == 1 && Lone(Run(s, events), x, y, v, w, v - Min(lead, v))
  {
    hide Run, Proper, Straight;
    var s := Boot<T>(lead, minimum);
    var e := Opening(v, w, x, y);
    StartRun(s);
    ProperLast(s, [], e[0]);
    ProperLast(s, [] + [e[0]], e[1]);
    ProperLast(s, [] + [e[0]] + [e[1]], e[2]);
    ProperLast(s, [] + [e[0]] + [e[1]] + [e[2]], e[3]);
    var r := s.Next(e[0]).Next(e[1]).Next(e[2]).Next(e[3]);
    SetUp(lead, minimum, v, w, x, y);
    ProperLast(s, [] + [e[0]] + [e[1]] + [e[2]] + [e[3]], e[4]);
    assert [] + [e[0]] + [e[1]] + [e[2]] + [e[3]] + [e[4]] == e;
    LoneHead(r, x, y, v, w);
  }

  lemma StartRun<T>(s: Schedule<T>)
    ensures Proper(s, []) && Straight(s, []) && Run(s, []) == s
  {
  }

  lemma SetUp<T>(lead: nat, minimum: Word, v: Word, w: Word, x: T, y: T)
    requires v >= minimum && w >= minimum && x != y
    ensures var s, e := Boot<T>(lead, minimum), Opening(v, w, x, y);
            s.Next(e[0]).Next(e[1]).Next(e[2]).Next(e[3]) == s.(reload := map[x := v, y := w])
  {
  }

  lemma LoneHead<T>(s: Schedule<T>, x: T, y: T, v: Word, w: Word)
    requires s.queue == [] && s.fired == [] && x != y && s.reload == map[x := v, y := w]
    ensures Lone(s.Started(x), x, y, v, w, v - Min(s.lead, v))
  {
    assert s.Inserted(x).queue == [s.NewEntry(x)];
  }

  lemma {:induction false} RunMinimum<T>(s: Schedule<T>, events: seq<Event<T>>)
    ensures Run(s, events).minimum == s.minimum
  {
    if events != [] {
      RunMinimum(s, events[..|events| - 1]);
    }
  }

  lemma LoneAged<T>(s: Schedule<T>, x: T, y: T, v: Word, w: Word, rest: nat)
    requires Lone(s, x, y, v, w, rest)
    ensures Aged(s, x, v, 0, rest)
  {
  }

  lemma AgedFresh<T>(s: Schedule<T>, x: T, v: Word, age: nat)
    requires Aged(s, x, v, age, 0)
    ensures s.fired == []
  {
  }

  // How early a callback can be, with every timer given a value: for every positive lead and every
  // value there is a run, with every walk on course, in which a timer of that value is called back
  // after at most minimum ticks, or one tick if minimum is 0.
  lemma EarliestRun<T>(lead: nat, minimum: Word, v: Word, x: T, y: T)
    requires lead > 0 && v >= minimum && x != y
    ensures var s, events := Boot<T>(lead, minimum), EarliestEvents(lead, minimum, v, x, y);
            && Proper(s, events) && Straight(s, events)
            && Run(s, events).now <= 2 + minimum
            && var fired := Run(s, events).fired;
               && |fired| == 1 && fired[0].entry.obj == x && fired[0].entry.reload == v
               && CallLog(s, events) == [Callback(x, fired[0].at)]
               && Run(s, events[..|events| - 1]).fired == []
               && Served(Run(s, events[..|events| - 1]), events[|events| - 1]) == [x]
               && fired[0].at - fired[0].entry.started <= (if minimum == 0 then 1 else minimum)
               && (v >= 2 ==> fired[0].at - fired[0].entry.started < v)
  {
    hide Sound, Run, Proper, Straight, Lone, Aged, OnCourse, Complete, CallLog;
    var s := Boot<T>(lead, minimum);
    var rest := v - Min(lead, v);
    var least := LeastRest(lead, minimum, rest);
    var n := if least == 0 then 1 else least;
    var e1 := Opening(v, minimum, x, y);
    var e2 := e1 + Flickers(lead, minimum, rest, y);
    var e3 := e2 + Ticks(n);
    var e4 := e3 + [Interrupt([[]])];
    OpeningRun(lead, minimum, v, minimum, x, y);
    BootSound<T>(lead, minimum);
    RunSound(s, e1);
    FlickersRun(s, e1, x, y, v, minimum, rest);
    LoneAged(Run(s, e2), x, y, v, minimum, least);
    TicksRun(s, e2, n, x, v, 0, least);
    LoneFires(Run(s, e3), x, v, n);
    ProperLast(s, e3, Interrupt([[]]));
    assert EarliestEvents(lead, minimum, v, x, y) == e4;
    CallsAreFirings(s, e4);
    assert e4[..|e3|] == e3;
    AgedFresh(Run(s, e3), x, v, n);
    assert CallLog(s, e4) == [Callback(x, Run(s, e4).fired[0].at)];
  }

  // ---------- early or not ----------

  // Event e, from s to s', calls t back for a start of t whose ReloadValue has passed.
  predicate Justified<T(==)>(s: Schedule<T>, s': Schedule<T>, t: T) {
    exists j :: |s.fired| <= j < |s'.fired| && OnTime(s'.fired[j], t, s.now)
  }

  predicate OnTime<T(==)>(f: Firing<T>, t: T, at: nat) {
    f.entry.obj == t && f.at == at >= f.entry.started + f.entry.reload
  }

  // Each of the callbacks of an event, from s to s', is for such a start of its own.
  ghost predicate AllJustified<T>(s: Schedule<T>, s': Schedule<T>, served: seq<T>) {
    forall i :: 0 <= i < |served| ==> served[i] !in served[..i] && Justified(s, s', served[i])
  }

  ghost predicate JustifiedAt<T>(s: Schedule<T>, events: seq<Event<T>>, n: nat)
    requires n < |events|
  {
    AllJustified(Run(s, events[..n]), Run(s, events[..n + 1]), Served(Run(s, events[..n]), events[n]))
  }

  // No callback of the run is early.
  ghost predicate NeverEarly<T>(s: Schedule<T>, events: seq<Event<T>>) {
    forall n :: 0 <= n < |events| ==> JustifiedAt(s, events, n)
  }

  predicate AllExpired<T(==)>(s: Schedule<T>, served: seq<T>) {
    forall i :: 0 <= i < |served| ==> served[i] !in served[..i] && served[i] in DueObjs(s)
  }

  predicate ExpiredAt<T(==)>(s: Schedule<T>, events: seq<Event<T>>, n: nat)
    requires n < |events|
  {
    AllExpired(Run(s, events[..n]), Served(Run(s, events[..n]), events[n]))
  }

  // Only expired timers are called back, each of them once at most.
  predicate OnlyExpired<T(==)>(s: Schedule<T>, events: seq<Event<T>>) {
    forall n :: 0 <= n < |events| ==> ExpiredAt(s, events, n)
  }

  // What an interrupt logs are its expired timers.
  lemma LoggedIffDue<T>(s: Schedule<T>, e: Event<T>, t: T)
    requires Sound(s) && e.Interrupt?
    ensures t in DueObjs(s) <==>
            exists j :: |s.fired| <= j < |s.Next(e).fired| && s.Next(e).fired[j].entry.obj == t && s.Next(e).fired[j].at == s.now
  {
    hide Sound;
    InterruptFires(s, e.scripts);
    var n, fired := |s.fired|, s.Next(e).fired;
    if t in DueObjs(s) {
      var i :| 0 <= i < |DueObjs(s)| && DueObjs(s)[i] == t;
      assert fired[n + i].entry == s.queue[i];
    }
    if j :| n <= j < |fired| && fired[j].entry.obj == t {
      assert DueObjs(s)[j - n] == t;
    }
  }

  lemma RunSplit<T>(s: Schedule<T>, events: seq<Event<T>>, n: nat)
    requires n < |events|
    ensures Run(s, events[..n + 1]) == Run(s, events[..n]).Next(events[n])
  {
    assert events[..n + 1][..n] == events[..n];
  }

  // With an exact reading a run has no early callback if and only if no walk calls a timer back that
  // has not expired, or calls one back twice.
  lemma NeverEarlyOffCourseIff<T>(minimum: Word, events: seq<Event<T>>)
    ensures NeverEarly(Boot<T>(0, minimum), events) <==> OnlyExpired(Boot<T>(0, minimum), events)
  {
    hide JustifiedAt, ExpiredAt;
    forall n | 0 <= n < |events|
      ensures JustifiedAt(Boot<T>(0, minimum), events, n) <==> ExpiredAt(Boot<T>(0, minimum), events, n)
    {
      JustifiedAtIff(minimum, events, n);
    }
  }

  lemma JustifiedAtIff<T>(minimum: Word, events: seq<Event<T>>, n: nat)
    requires n < |events|
    ensures JustifiedAt(Boot<T>(0, minimum), events, n) <==> ExpiredAt(Boot<T>(0, minimum), events, n)
  {
    hide Run, DueObjs, Justified, Visits, Complete;
    var s := Boot<T>(0, minimum);
    forall t | t in Served(Run(s, events[..n]), events[n])
      ensures Justified(Run(s, events[..n]), Run(s, events[..n + 1]), t) <==> t in DueObjs(Run(s, events[..n]))
    {
      JustifiedIffDue(minimum, events, n, t);
    }
  }

  lemma JustifiedIffDue<T>(minimum: Word, events: seq<Event<T>>, n: nat, t: T)
    requires n < |events| && events[n].Interrupt?
    ensures var s := Boot<T>(0, minimum);
            Justified(Run(s, events[..n]), Run(s, events[..n + 1]), t) <==> t in DueObjs(Run(s, events[..n]))
  {
    hide Run, Sound, Schedule.Next;
    var s := Boot<T>(0, minimum);
    var r, r' := Run(s, events[..n]), Run(s, events[..n + 1]);
    BootSound<T>(0, minimum);
    RunSound(s, events[..n]);
    RunSplit(s, events, n);
    LoggedIffDue(r, events[n], t);
    forall j | |r.fired| <= j < |r'.fired|
      ensures r'.fired[j].at >= r'.fired[j].entry.started + r'.fired[j].entry.reload
    {
      var m, k := ExactWithoutLead(minimum, events[..n + 1], j);
    }
    if t in DueObjs(r) {
      var j :| |r.fired| <= j < |r'.fired| && r'.fired[j].entry.obj == t && r'.fired[j].at == r.now;
      assert OnTime(r'.fired[j], t, r.now);
    }
    if Justified(r, r', t) {
      var j :| |r.fired| <= j < |r'.fired| && OnTime(r'.fired[j], t, r.now);
    }
  }

  lemma StraightOnlyExpired<T>(s: Schedule<T>, events: seq<Event<T>>)
    requires Sound(s) && Straight(s, events)
    ensures OnlyExpired(s, events)
  {
    hide Run, OnCourse, Sound, AllExpired, DueObjs;
    forall n | 0 <= n < |events|
      ensures ExpiredAt(s, events, n)
    {
      RunSound(s, events[..n]);
      DueExpired(Run(s, events[..n]));
      NoneExpired(Run(s, events[..n]));
      if events[n].Interrupt? {
        OnCourseServes(Run(s, events[..n]), events[n].scripts);
      }
    }
  }

  lemma DueExpired<T>(s: Schedule<T>)
    requires Sound(s)
    ensures AllExpired(s, DueObjs(s))
  {
    hide LogSound, Slot;
    var due := DueObjs(s);
    forall i | 0 <= i < |due|
      ensures due[i] !in due[..i]
    {
      assert forall j :: 0 <= j < i ==> Apart(s.queue[j], s.queue[i]) && due[j] == s.queue[j].obj;
    }
  }

  lemma NoneExpired<T>(s: Schedule<T>)
    ensures AllExpired(s, [])
  {
  }

  // The elapsed-time reading of this board is one tick ahead (lead 1), and that is enough to lose
  // the guarantee: no callback is ever early, over all runs of a program that keeps the rules and
  // keeps its walks on course, if and only if lead is 0.
  lemma NeverEarlyIff(lead: nat, minimum: Word)
    ensures lead == 0 <==>
            forall events :: Proper(Boot<int>(lead, minimum), events) && Straight(Boot<int>(lead, minimum), events) ==>
              NeverEarly(Boot<int>(lead, minimum), events)
  {
    hide Proper, Straight, NeverEarly;
    var s := Boot<int>(lead, minimum);
    if lead == 0 {
      forall events | Straight(s, events)
        ensures NeverEarly(s, events)
      {
        BootSound<int>(lead, minimum);
        StraightOnlyExpired(s, events);
        NeverEarlyOffCourseIff(minimum, events);
      }
    } else {
      var v := if minimum < 2 then 2 else minimum;
      EarliestRun(lead, minimum, v, 1, 0);
      EarliestIsEarly(lead, minimum, v, 1, 0);
    }
  }

  lemma EarliestIsEarly<T>(lead: nat, minimum: Word, v: Word, x: T, y: T)
    requires lead > 0 && v >= minimum && v >= 2 && x != y
    ensures !NeverEarly(Boot<T>(lead, minimum), EarliestEvents(lead, minimum, v, x, y))
  {
    hide Run, Proper, Straight, Served, CallLog;
    var s, events := Boot<T>(lead, minimum), EarliestEvents(lead, minimum, v, x, y);
    EarliestRun(lead, minimum, v, x, y);
    var n := |events| - 1;
    assert events[..n + 1] == events;
    var r := Run(s, events[..n]);
    assert !Justified(r, Run(s, events[..n + 1]), x);
    assert Served(r, events[n])[0] == x;
    assert !JustifiedAt(s, events, n);
  }

  // ---------- off course ----------

  // x and y have the value v.  The callback of x, which has expired, starts both of them: the walk
  // goes on to y and calls it back as well, v ticks before it is due.
  function StrayEvents<T>(v: Word, x: T, y: T): seq<Event<T>> {
    Opening(v, v, x, y) + Ticks(v) + [Interrupt([[Start(x), Start(y)], []])]
  }

  // Off course the guarantee is lost without any lead: this run of a program that keeps the rules
  // has an early callback, for every value.
  lemma StrayRun<T>(minimum: Word, v: Word, x: T, y: T)
    requires v > 0 && v >= minimum && x != y
    ensures var s, events := Boot<T>(0, minimum), StrayEvents(v, x, y);
            && Proper(s, events) && !NeverEarly(s, events)
            && CallLog(s, events) == [Callback(x, Run(s, events).now), Callback(y, Run(s, events).now)]
            && Run(s, events).now == 1 + v
            && Run(s, events).DueOf(y) == Some(Run(s, events).now + v)
  {
    hide Run, Proper, CallLog, Complete, NeverEarly, OnlyExpired, Schedule.Next, Opening, Ticks;
    var s := Boot<T>(0, minimum);
    var e := Interrupt([[Start(x), Start(y)], []]);
    var events := Opening(v, v, x, y) + Ticks(v);
    StrayOpening(minimum, v, x, y);
    var r := Run(s, events);
    StrayWalk(r, v, x, y);
    StrayProper(r, v, x, y);
    ProperLast(s, events, e);
    assert StrayEvents(v, x, y) == events + [e];
    LastCalls(s, events, e);
    NextSteady(r, e);
    NotOnlyExpired(s, events, e, y);
    NeverEarlyOffCourseIff(minimum, events + [e]);
  }

  lemma StrayOpening<T>(minimum: Word, v: Word, x: T, y: T)
    requires v > 0 && v >= minimum && x != y
    ensures var s, events := Boot<T>(0, minimum), Opening(v, v, x, y) + Ticks(v);
            var r := Run(s, events);
            && Proper(s, events) && CallLog(s, events) == []
            && r.now == 1 + v && r.lead == 0 && r.minimum == minimum && r.reload == map[x := v, y := v]
            && |r.queue| == 1 && r.queue[0].obj == x && r.queue[0].due == r.now && r.fired == []
  {
    hide Run, Proper, Straight, Lone, Aged, CallLog, OnCourse;
    var s := Boot<T>(0, minimum);
    var opening := Opening(v, v, x, y);
    OpeningRun(0, minimum, v, v, x, y);
    LoneAged(Run(s, opening), x, y, v, v, v);
    TicksRun(s, opening, v, x, v, 0, v);
    LoneReload(Run(s, opening), x, y, v, v, v);
    AgedDue(Run(s, opening + Ticks(v)), x, v, v);
    RunLead(s, opening + Ticks(v));
    RunMinimum(s, opening + Ticks(v));
    CallsAreFirings(s, opening + Ticks(v));
  }

  lemma LoneReload<T>(s: Schedule<T>, x: T, y: T, v: Word, w: Word, rest: nat)
    requires Lone(s, x, y, v, w, rest)
    ensures s.reload == map[x := v, y := w] && x != y
  {
  }

  lemma AgedDue<T>(s: Schedule<T>, x: T, v: Word, age: nat)
    requires Aged(s, x, v, age, 0)
    ensures |s.queue| == 1 && s.queue[0].obj == x && s.queue[0].due == s.now && s.fired == []
  {
  }

  lemma StrayProper<T>(s: Schedule<T>, v: Word, x: T, y: T)
    requires Complete(s, [[Start(x), Start(y)], []])
    requires x in s.reload && y in s.reload && s.Reload(x) == s.Reload(y) == v >= s.minimum
    ensures ProperEvent(s, Interrupt([[Start(x), Start(y)], []]))
  {
    hide Complete;
  }

  lemma LastCalls<T>(s: Schedule<T>, events: seq<Event<T>>, e: Event<T>)
    ensures CallLog(s, events + [e]) == CallLog(s, events) + Stamp(Served(Run(s, events), e), Run(s, events).now)
  {
    assert (events + [e])[..|events|] == events;
  }

  lemma NextSteady<T>(s: Schedule<T>, e: Event<T>)
    requires e.Interrupt?
    ensures s.Next(e).now == s.now
  {
    hide RunScripts;
  }

  lemma NotOnlyExpired<T>(s: Schedule<T>, events: seq<Event<T>>, e: Event<T>, t: T)
    requires t in Served(Run(s, events), e) && t !in DueObjs(Run(s, events))
    ensures !OnlyExpired(s, events + [e])
  {
    hide Run, Served, DueObjs;
    var all, n := events + [e], |events|;
    assert all[..n] == events && all[n] == e;
    var i :| 0 <= i < |Served(Run(s, events), e)| && Served(Run(s, events), e)[i] == t;
    assert !ExpiredAt(s, all, n);
  }
}
