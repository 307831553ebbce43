/**
 * What one step does to the map from timer to deadline, and what every run keeps, with
 * interrupts served arbitrarily late and callbacks that start, stop, reset and revalue any
 * timers.
 */
module TimerTheorems {
  import opened Arithmetic
  import opened Common
  import opened TimerSchedule

  // ---------- the deadline map ----------

  function Earlier(due: Option<nat>, ticks: nat): Option<nat> {
    match due
    case None => None
    case Some(d) => Some(Monus(d, ticks))
  }

  function Later(due: Option<nat>, ticks: nat): Option<nat> {
    match due
    case None => None
    case Some(d) => Some(d + ticks)
  }

  lemma DueAt<T>(s: Schedule<T>, i: nat)
    requires QueueSound(s) && i < |s.queue|
    ensures IndexOf(s.queue, s.queue[i].obj) == i
    ensures s.DueOf(s.queue[i].obj) == Some(s.queue[i].due)
  {
    var k := IndexOf(s.queue, s.queue[i].obj);
    assert k < i ==> Apart(s.queue[k], s.queue[i]);
  }

  lemma DueNowhere<T>(s: Schedule<T>, x: T)
    requires forall i :: 0 <= i < |s.queue| ==> s.queue[i].obj != x
    ensures s.DueOf(x) == None
  {
  }

  // TimerHwStart shifts every deadline by the same amount.
  lemma ReprogramDue<T>(s: Schedule<T>, x: T)
    requires Sound(s)
    ensures s.Forward() <= s.lead
    ensures s.Reprogrammed().DueOf(x) == Earlier(s.DueOf(x), s.Forward())
  {
    var i := IndexOf(s.queue, x);
    ReprogramIndex(s, x);
    if i < |s.queue| {
      ForwardFits(s, i);
    }
  }

  lemma InsertKeepsEntry<T>(s: Schedule<T>, t: T, i: nat)
    requires QueueSound(s.Inserted(t)) && i < |s.queue|
    ensures s.Inserted(t).DueOf(s.queue[i].obj) == Some(s.queue[i].due)
  {
    var i' := if i < s.PlaceOf(t) then i else i + 1;
    assert s.Inserted(t).queue[i'] == s.queue[i];
    DueAt(s.Inserted(t), i');
  }

  lemma InsertDue<T>(s: Schedule<T>, t: T, x: T)
    requires Sound(s) && s.DueOf(t) == None
    ensures s.Inserted(t).DueOf(x) == if x == t then Some(s.now + s.Reload(t)) else s.DueOf(x)
  {
    var s' := s.Inserted(t);
    var p := s.PlaceOf(t);
    InsertSound(s, t);
    var i := IndexOf(s.queue, x);
    if x == t {
      assert s'.queue[p] == s.NewEntry(t);
      DueAt(s', p);
    } else if i < |s.queue| {
      InsertKeepsEntry(s, t, i);
    } else {
      DueNowhere(s', x);
    }
  }

  lemma RemoveDue<T>(s: Schedule<T>, i: nat, x: T)
    requires Sound(s) && i < |s.queue|
    ensures s.Removed(i).DueOf(x) == if x == s.queue[i].obj then None else s.DueOf(x)
  {
    var s' := s.Removed(i);
    RemoveSound(s, i);
    var k := IndexOf(s.queue, x);
    DueAt(s, i);
    if k < |s.queue| && k != i {
      var k' := if k < i then k else k - 1;
      assert s'.queue[k'] == s.queue[k];
      DueAt(s', k');
    } else {
      forall j | 0 <= j < |s'.queue|
        ensures s'.queue[j].obj != x
      {
        var j' := if j < i then j else j + 1;
        assert s'.queue[j] == s.queue[j'];
        DueAt(s, j');
      }
      DueNowhere(s', x);
    }
  }

  // The TimerHwStart calls of one operation, each given by the ticks that it brings the deadlines
  // forward: a start programs the hardware if the timer becomes the head, ...
  function StartForwards<T(==)>(s: Schedule<T>, t: T): seq<nat> {
    if s.DueOf(t) == None && s.PlaceOf(t) == 0 then [Min(s.lead, s.Reload(t))] else []
  }

  // ... a stop if it takes away the running head and there is a next one.
  function StopForwards<T(==)>(s: Schedule<T>, t: T): seq<nat> {
    if |s.queue| > 1 && s.queue[0].obj == t && s.running
    then [Min(s.lead, Monus(s.queue[1].due, s.now))]
    else []
  }

  lemma StartForwardsOnly<T>(s: Schedule<T>, t: T)
    ensures s.Started(t).hwStarts == s.hwStarts + StartForwards(s, t)
    ensures Sum(StartForwards(s, t)) <= s.lead
  {
    if s.DueOf(t) == None && s.PlaceOf(t) == 0 {
      assert s.Inserted(t).queue[0] == s.NewEntry(t);
      assert Sum([Min(s.lead, s.Reload(t))]) == Min(s.lead, s.Reload(t));
    }
  }

  lemma StopForwardsOnly<T>(s: Schedule<T>, t: T)
    ensures s.Stopped(t).hwStarts == s.hwStarts + StopForwards(s, t)
    ensures Sum(StopForwards(s, t)) <= s.lead
  {
    if |s.queue| > 1 && s.queue[0].obj == t && s.running {
      assert s.Removed(0).queue[0] == s.queue[1];
      assert Sum([Min(s.lead, Monus(s.queue[1].due, s.now))]) == Min(s.lead, Monus(s.queue[1].due, s.now));
    }
  }

  // TimerStart adds now + ReloadValue for a timer that is not pending, does nothing for one that
  // is, and moves the other deadlines by its TimerHwStart only (by nothing if lead is 0).
  lemma StartDue<T>(s: Schedule<T>, t: T, x: T)
    requires Sound(s)
    ensures s.DueOf(t) != None ==> s.Started(t) == s
    ensures s.DueOf(t) == None ==>
              s.Started(t).DueOf(x)
              == Earlier(if x == t then Some(s.now + s.Reload(t)) else s.DueOf(x), Sum(StartForwards(s, t)))
    ensures Sum(StartForwards(s, t)) <= s.lead
  {
    StartForwardsOnly(s, t);
    if s.DueOf(t) == None {
      InsertDue(s, t, x);
      if s.PlaceOf(t) == 0 {
        HeadDue(s, t, x);
      } else {
        EarlierTwice(s.Inserted(t).DueOf(x), 0, 0);
      }
    }
  }

  lemma HeadDue<T>(s: Schedule<T>, t: T, x: T)
    requires Sound(s) && s.DueOf(t) == None && s.PlaceOf(t) == 0
    ensures s.Started(t).DueOf(x) == Earlier(s.Inserted(t).DueOf(x), Sum(StartForwards(s, t)))
  {
    hide Sound;
    var r := s.Inserted(t).(running := true);
    InsertSound(s, t);
    RunningFree(s.Inserted(t), true);
    ReprogramDue(r, x);
    assert r.queue[0] == s.NewEntry(t);
    assert Sum([r.Forward()]) == r.Forward();
  }

  lemma StopDue<T>(s: Schedule<T>, t: T, x: T)
    requires Sound(s)
    ensures s.Stopped(t).DueOf(x) == Earlier(if x == t then None else s.DueOf(x), Sum(StopForwards(s, t)))
    ensures Sum(StopForwards(s, t)) <= s.lead
  {
    StopForwardsOnly(s, t);
    var i := IndexOf(s.queue, t);
    if i < |s.queue| {
      RemoveDue(s, i, x);
      if i == 0 && s.running {
        RemoveSound(s, 0);
        ReprogramDue(s.Removed(0), x);
        HeadGoneForward(s, t);
      }
    }
  }

  lemma HeadGoneForward<T>(s: Schedule<T>, t: T)
    requires s.queue != [] && s.queue[0].obj == t && s.running
    ensures Sum(StopForwards(s, t)) == s.Removed(0).Forward()
  {
    if |s.queue| > 1 {
      assert s.Removed(0).queue[0] == s.queue[1];
      assert Sum([s.Removed(0).Forward()]) == s.Removed(0).Forward();
    }
  }

  lemma EarlierTwice(due: Option<nat>, a: nat, b: nat)
    ensures Earlier(Earlier(due, a), b) == Earlier(due, a + b)
    ensures Earlier(due, 0) == due
  {
  }

  // TimerReset: remove, then insert at now + ReloadValue, whether or not it was pending.
  lemma ResetDue<T>(s: Schedule<T>, t: T)
    requires Sound(s)
    ensures s.Obeyed(Reset(t)).DueOf(t)
            == Earlier(Some(s.now + s.Reload(t)), Sum(StartForwards(s.Stopped(t), t)))
    ensures Sum(StartForwards(s.Stopped(t), t)) <= s.lead
  {
    hide Sound, StartForwards, IndexOf, Slot;
    StopSound(s, t);
    StartDue(s.Stopped(t), t, t);
  }

  // It moves the other deadlines by its at most two TimerHwStart calls only.
  lemma ResetOtherDue<T>(s: Schedule<T>, t: T, x: T)
    requires Sound(s) && x != t
    ensures s.Obeyed(Reset(t)).DueOf(x)
            == Earlier(s.DueOf(x), Sum(StopForwards(s, t)) + Sum(StartForwards(s.Stopped(t), t)))
    ensures Sum(StopForwards(s, t)) + Sum(StartForwards(s.Stopped(t), t)) <= 2 * s.lead
  {
    hide Sound, StartForwards, StopForwards, Earlier, Sum, IndexOf, Slot;
    StopDue(s, t, x);
    StopSound(s, t);
    RestartDue(s.Stopped(t), t, x, s.DueOf(x), Sum(StopForwards(s, t)));
  }

  lemma RestartDue<T>(s: Schedule<T>, t: T, x: T, before: Option<nat>, ticks: nat)
    requires Sound(s) && s.DueOf(t) == None && x != t && s.DueOf(x) == Earlier(before, ticks)
    ensures s.Started(t).DueOf(x) == Earlier(before, ticks + Sum(StartForwards(s, t)))
    ensures Sum(StartForwards(s, t)) <= s.lead
  {
    hide Sound, StartForwards, Sum, IndexOf, Slot;
    StartDue(s, t, x);
    EarlierTwice(before, ticks, Sum(StartForwards(s, t)));
  }

  // TimerSetValue unlinks first, so no value disturbs another deadline.
  lemma SetValueDue<T>(s: Schedule<T>, t: T, value: Word, x: T)
    requires Sound(s)
    ensures var s' := s.Obeyed(SetValue(t, value));
            && s'.DueOf(x) == Earlier(if x == t then None else s.DueOf(x), Sum(StopForwards(s, t)))
            && s'.Reload(x) == if x == t then (if value < s.minimum then s.minimum else value) else s.Reload(x)
    ensures Sum(StopForwards(s, t)) <= s.lead
  {
    StopDue(s, t, x);
  }

  // A tick moves deadlines exactly when the head is overdue, and then all by one.
  lemma TickDue<T>(s: Schedule<T>, x: T)
    requires Sound(s)
    ensures s.Ticked().DueOf(x) == Later(s.DueOf(x), if s.Overdue() then 1 else 0)
  {
    hide Sound, IndexOf;
    SameIndex(s.queue, s.Ticked().queue, x);
  }

  // An interrupt takes away exactly the entries that are due.
  lemma ExpireDue<T>(s: Schedule<T>, x: T)
    requires Sound(s)
    ensures s.Expired().DueOf(x) == if s.DueOf(x) == Some(s.now) then None else s.DueOf(x)
  {
    var s', k := s.Expired(), s.DueCount();
    DueExactly(s);
    ExpireSound(s);
    var i := IndexOf(s.queue, x);
    if k <= i < |s.queue| {
      assert s'.queue[i - k].obj == x;
      DueAt(s', i - k);
    } else {
      forall j | 0 <= j < |s'.queue|
        ensures s'.queue[j].obj != x
      {
        DueAt(s, k + j);
      }
      DueNowhere(s', x);
    }
  }

  // Whatever the callbacks do, an interrupt fires exactly the entries due at this tick: entry by
  // entry the first ones of the queue, in the order of their starts, and no later one is due.
  lemma InterruptFires<T>(s: Schedule<T>, scripts: seq<seq<Command<T>>>)
    requires Sound(s)
    ensures var k, n, fired := s.DueCount(), |s.fired|, s.Interrupted(scripts).fired;
            && |fired| == n + k && fired[..n] == s.fired
            && (forall i :: n <= i < n + k ==>
                  fired[i].entry == s.queue[i - n] && fired[i].at == s.now == fired[i].entry.due)
            && (forall i, j :: n <= i < j < n + k ==> fired[i].entry.serial < fired[j].entry.serial)
            && (forall i :: k <= i < |s.queue| ==> s.queue[i].due > s.now)
  {
    DueExactly(s);
    var k, n := s.DueCount(), |s.fired|;
    if s.queue != [] {
      assert s.Interrupted(scripts).fired == s.Expired().fired;
    }
    forall i, j | 0 <= i < j < k
      ensures s.queue[i].serial < s.queue[j].serial
    {
      assert Apart(s.queue[i], s.queue[j]);
    }
  }

  // Callbacks that make no calls leave exactly the survivors, with the hardware re-programmed
  // for their head.
  lemma QuietInterrupt<T>(s: Schedule<T>, scripts: seq<seq<Command<T>>>)
    requires Sound(s) && s.queue != []
    requires forall i :: 0 <= i < |scripts| ==> scripts[i] == []
    ensures s.Interrupted(scripts).queue == Advanced(s.queue[s.DueCount()..], s.Expired().Forward())
    ensures s.Expired().Forward() <= s.lead
  {
    QuietScripts(s.Expired(), scripts);
    ExpireSound(s);
  }

  lemma {:induction false} QuietScripts<T>(s: Schedule<T>, scripts: seq<seq<Command<T>>>)
    requires forall i :: 0 <= i < |scripts| ==> scripts[i] == []
    ensures RunScripts(s, scripts) == s
  {
    if scripts != [] {
      QuietScripts(s, scripts[..|scripts| - 1]);
    }
  }

  // ---------- over every run ----------

  // Sorted by deadline; equal deadlines in the order of their starts; the log in time order.
  lemma OrderedAndStable<T>(lead: nat, minimum: Word, events: seq<Event<T>>, i: nat, j: nat)
    requires i < j
    ensures var r := Run(Boot<T>(lead, minimum), events);
            && (j < |r.queue| ==>
                  && r.now <= r.queue[i].due <= r.queue[j].due
                  && (r.queue[i].due == r.queue[j].due ==> r.queue[i].serial < r.queue[j].serial))
            && (j < |r.fired| ==> r.fired[i].at <= r.fired[j].at)
  {
    BootSound<T>(lead, minimum);
    RunSound(Boot<T>(lead, minimum), events);
    var r := Run(Boot<T>(lead, minimum), events);
    if j < |r.queue| {
      assert Apart(r.queue[i], r.queue[j]) && Honest(r, r.queue[i]);
    }
  }

  // ---------- every start is accounted for ----------

  function Serials<T>(q: seq<Pending<T>>): seq<nat> {
    seq(|q|, i requires 0 <= i < |q| => q[i].serial)
  }

  function FiredSerials<T>(log: seq<Firing<T>>): seq<nat> {
    seq(|log|, i requires 0 <= i < |log| => log[i].entry.serial)
  }

  // The serial numbers of all pending, fired and stopped starts.
  function Account<T(==)>(s: Schedule<T>): multiset<nat> {
    multiset(Serials(s.queue)) + multiset(FiredSerials(s.fired)) + multiset(s.stopped)
  }

  // They are 0 .. starts - 1, each exactly once.
  ghost predicate Accounted<T>(s: Schedule<T>) {
    forall n: nat :: Account(s)[n] == if n < s.starts then 1 else 0
  }

  lemma CountInsert(xs: seq<nat>, p: nat, x: nat)
    requires p <= |xs|
    ensures multiset(InsertAt(xs, p, x)) == multiset(xs) + multiset{x}
  {
    assert InsertAt(xs, p, x) == xs[..p] + [x] + xs[p..];
    assert xs == xs[..p] + xs[p..];
  }

  lemma CountRemove(xs: seq<nat>, i: nat)
    requires i < |xs|
    ensures multiset(RemoveAt(xs, i)) + multiset{xs[i]} == multiset(xs)
  {
    assert RemoveAt(xs, i) == xs[..i] + xs[i + 1..];
    assert xs == xs[..i] + [xs[i]] + xs[i + 1..];
  }

  lemma InsertAccounted<T>(s: Schedule<T>, t: T)
    requires Accounted(s)
    ensures Accounted(s.Inserted(t))
  {
    var s', p := s.Inserted(t), s.PlaceOf(t);
    CountInsert(Serials(s.queue), p, s.starts);
    assert Serials(s'.queue) == InsertAt(Serials(s.queue), p, s.starts);
    assert Account(s') == Account(s) + multiset{s.starts};
  }

  lemma RemoveAccounted<T>(s: Schedule<T>, i: nat)
    requires Accounted(s) && i < |s.queue|
    ensures Accounted(s.Removed(i))
  {
    var s', n := s.Removed(i), s.queue[i].serial;
    CountRemove(Serials(s.queue), i);
    assert Serials(s'.queue) == RemoveAt(Serials(s.queue), i);
    assert multiset(s'.stopped) == multiset(s.stopped) + multiset{n};
    assert Account(s') == Account(s);
  }

  // Moving deadlines does not touch the account.
  lemma SameAccount<T>(s: Schedule<T>, s': Schedule<T>)
    requires Accounted(s) && s'.starts == s.starts && s'.fired == s.fired && s'.stopped == s.stopped
    requires Serials(s'.queue) == Serials(s.queue)
    ensures Accounted(s')
  {
    assert Account(s') == Account(s);
  }

  lemma StartAccounted<T>(s: Schedule<T>, t: T)
    requires Accounted(s)
    ensures Accounted(s.Started(t))
  {
    if s.DueOf(t) == None {
      InsertAccounted(s, t);
      var s' := s.Started(t);
      assert Serials(s'.queue) == Serials(s.Inserted(t).queue);
      SameAccount(s.Inserted(t), s');
    }
  }

  lemma StopAccounted<T>(s: Schedule<T>, t: T)
    requires Accounted(s)
    ensures Accounted(s.Stopped(t))
  {
    var i := IndexOf(s.queue, t);
    if i < |s.queue| {
      RemoveAccounted(s, i);
      var s' := s.Stopped(t);
      assert Serials(s'.queue) == Serials(s.Removed(i).queue);
      SameAccount(s.Removed(i), s');
    }
  }

  lemma ObeyAccounted<T>(s: Schedule<T>, c: Command<T>)
    requires Accounted(s)
    ensures Accounted(s.Obeyed(c))
  {
    match c
    case Start(t) => StartAccounted(s, t);
    case Stop(t) => StopAccounted(s, t);
    case Reset(t) => StopAccounted(s, t); StartAccounted(s.Stopped(t), t);
    case SetValue(t, v) => StopAccounted(s, t); SameAccount(s.Stopped(t), s.Revalued(t, v));
  }

  lemma {:induction false} ScriptAccounted<T>(s: Schedule<T>, commands: seq<Command<T>>)
    requires Accounted(s)
    ensures Accounted(RunScript(s, commands))
  {
    if commands != [] {
      var n := |commands| - 1;
      ScriptAccounted(s, commands[..n]);
      ObeyAccounted(RunScript(s, commands[..n]), commands[n]);
    }
  }

  lemma {:induction false} ScriptsAccounted<T>(s: Schedule<T>, scripts: seq<seq<Command<T>>>)
    requires Accounted(s)
    ensures Accounted(RunScripts(s, scripts))
  {
    hide RunScript, Accounted;
    if scripts != [] {
      var n := |scripts| - 1;
      ScriptsAccounted(s, scripts[..n]);
      ScriptAccounted(RunScripts(s, scripts[..n]), scripts[n]);
    }
  }

  lemma ExpireAccounted<T>(s: Schedule<T>)
    requires Accounted(s)
    ensures Accounted(s.Expired())
  {
    var s', k := s.Expired(), s.DueCount();
    var all := Serials(s.queue);
    assert Serials(s'.queue) == all[k..];
    assert FiredSerials(s'.fired) == FiredSerials(s.fired) + all[..k];
    assert all == all[..k] + all[k..];
    assert Account(s') == Account(s);
  }

  lemma InterruptAccounted<T>(s: Schedule<T>, scripts: seq<seq<Command<T>>>)
    requires Accounted(s)
    ensures Accounted(s.Interrupted(scripts))
  {
    if s.queue != [] {
      ExpireAccounted(s);
      ScriptsAccounted(s.Expired(), scripts);
      var r := RunScripts(s.Expired(), scripts);
      assert Serials(r.Resumed().queue) == Serials(r.queue);
      SameAccount(r, r.Resumed());
    }
  }

  lemma NextAccounted<T>(s: Schedule<T>, e: Event<T>)
    requires Accounted(s)
    ensures Accounted(s.Next(e))
  {
    match e
    case Init(t, _) => SameAccount(s, s.Next(e));
    case Tick =>
      assert Serials(s.Ticked().queue) == Serials(s.queue);
      SameAccount(s, s.Ticked());
    case Call(c) => ObeyAccounted(s, c);
    case Interrupt(scripts) => InterruptAccounted(s, scripts);
  }

  // A run never forgets or repeats: each start is pending, or fired, or stopped, and once only.
  lemma {:induction false} EveryStartOnce<T>(lead: nat, minimum: Word, events: seq<Event<T>>)
    ensures Accounted(Run(Boot<T>(lead, minimum), events))
  {
    var s := Boot<T>(lead, minimum);
    if events == [] {
      assert Account(s) == multiset{};
    } else {
      var n := |events| - 1;
      EveryStartOnce<T>(lead, minimum, events[..n]);
      NextAccounted(Run(s, events[..n]), events[n]);
    }
  }
}
