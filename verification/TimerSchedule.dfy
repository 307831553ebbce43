/**
 * What the timer server promises, without its delta list: a queue of absolute deadlines.
 *
 * Time is a tick count.  Two things move a deadline after its start:
 *  - while an expired head waits for its interrupt, every deadline slips by one per tick
 *    ("waited"), because each timer is counted from its predecessor;
 *  - the elapsed-time reading is ahead of the tick counter by "lead", so each TimerHwStart brings
 *    every deadline forward by up to lead ticks ("hwStarts" has the amount for each of them).
 *
 * TimerServer.dfy proves that the linked list implements this machine step by step.
 */
module TimerSchedule {
  import opened Arithmetic
  import opened Common

  // The calls that a program, or a timer callback, makes on the server.
  datatype Command<T> = Start(obj: T) | Stop(obj: T) | Reset(obj: T) | SetValue(obj: T, value: Word)

  // An interrupt comes with what its callbacks do: script i lists the calls that the i-th callback
  // makes.
  datatype Event<T> =
    | Init(obj: T, callback: bool)
    | Tick
    | Call(command: Command<T>)
    | Interrupt(scripts: seq<seq<Command<T>>>)

  // A started timer.  Its serial number counts the starts; waitedThen and hwStartsThen are the
  // slip and the number of TimerHwStart calls at its start.
  datatype Pending<T> = Pending(
    obj: T, due: nat, reload: Word, started: nat, waitedThen: nat, hwStartsThen: nat, serial: nat)

  // A timer taken off the queue by an interrupt, to be called back there and then if the walk comes
  // to it.
  datatype Firing<T> = Firing(entry: Pending<T>, at: nat, waitedNow: nat, hwStartsNow: nat)

  datatype Schedule<T(==)> = Schedule(
    now: nat,                  // the tick counter
    lead: nat,                 // reading minus elapsed ticks
    minimum: Word,             // TimerHwGetMinimumTimeout
    running: bool,             // is the hardware counting for the head?
    waited: nat,               // total slip so far
    hwStarts: seq<nat>,        // how far each TimerHwStart brought the deadlines forward
    programmed: nat,           // the tick of the last TimerHwStart
    starts: nat,
    queue: seq<Pending<T>>,
    fired: seq<Firing<T>>,
    stopped: seq<nat>,         // serial numbers
    reload: map<T, Word>)      // ReloadValue of every initialised timer
  {
    function Reload(t: T): Word {
      if t in reload then reload[t] else 0
    }

    // No call moves the clock, the log, the slip or the board's constants.
    predicate Steady(s: Schedule<T>) {
      && s.now == now && s.lead == lead && s.minimum == minimum
      && s.waited == waited && s.fired == fired
    }

    // The deadline map that the delta list encodes.
    function DueOf(t: T): Option<nat> {
      var i := IndexOf(queue, t);
      if i < |queue| then Some(queue[i].due) else None
    }

    predicate Overdue() {
      queue != [] && queue[0].due <= now
    }

    function Initialised(t: T): Schedule<T> {
      this.(reload := reload[t := 0])
    }

    function Ticked(): Schedule<T> {
      if Overdue()
      then this.(now := now + 1, waited := waited + 1, queue := Delayed(queue))
      else this.(now := now + 1)
    }

    // By how much a TimerHwStart for the present head brings the deadlines forward.
    function Forward(): nat {
      if queue == [] then 0 else Min(lead, Monus(queue[0].due, now))
    }

    function Reprogrammed(): (s: Schedule<T>)
      ensures Steady(s) && s.reload == reload
    {
      if queue == [] then this
      else this.(hwStarts := hwStarts + [Forward()], programmed := now, queue := Advanced(queue, Forward()))
    }

    function NewEntry(t: T): Pending<T> {
      Pending(t, now + Reload(t), Reload(t), now, waited, |hwStarts|, starts)
    }

    function PlaceOf(t: T): nat {
      Slot(queue, now + Reload(t))
    }

    function Inserted(t: T): Schedule<T> {
      this.(queue := InsertAt(queue, PlaceOf(t), NewEntry(t)), starts := starts + 1)
    }

    function Started(t: T): (s: Schedule<T>)
      ensures Steady(s) && s.reload == reload
    {
      if IndexOf(queue, t) < |queue| then this
      else if PlaceOf(t) == 0 then Inserted(t).(running := true).Reprogrammed()
      else Inserted(t)
    }

    function Removed(i: nat): Schedule<T>
      requires i < |queue|
    {
      this.(queue := RemoveAt(queue, i), stopped := stopped + [queue[i].serial])
    }

    function Stopped(t: T): (s: Schedule<T>)
      ensures Steady(s) && s.reload == reload
    {
      var i := IndexOf(queue, t);
      if i == |queue| then this
      else if i == 0 && running then Removed(i).Reprogrammed()
      else Removed(i)
    }

    // The ReloadValue that TimerSetValue stores.
    function Raised(value: Word): Word {
      if value < minimum then minimum else value
    }

    function Revalued(t: T, value: Word): (s: Schedule<T>)
      ensures Steady(s)
    {
      var s := Stopped(t);
      s.(reload := s.reload[t := Raised(value)])
    }

    function Obeyed(c: Command<T>): (s: Schedule<T>)
      ensures Steady(s)
    {
      match c
      case Start(t) => Started(t)
      case Stop(t) => Stopped(t)
      case Reset(t) => Stopped(t).Started(t)
      case SetValue(t, v) => Revalued(t, v)
    }

    // The number of entries that are due now.
    function DueCount(): nat {
      Slot(queue, now)
    }

    function Expired(): Schedule<T> {
      this.(queue := queue[DueCount()..],
            fired := fired + Firings(queue[..DueCount()], now, waited, |hwStarts|),
            running := false)
    }

    // The last step of an interrupt programs the hardware, again if a callback has done so.
    function Resumed(): (s: Schedule<T>)
      ensures Steady(s)
    {
      if queue == [] then this
      else if running then this.(hwStarts := hwStarts + [0], programmed := now)
      else Reprogrammed().(running := true)
    }

    function Interrupted(scripts: seq<seq<Command<T>>>): Schedule<T> {
      if queue == [] then this else RunScripts(Expired(), scripts).Resumed()
    }

    function Next(e: Event<T>): Schedule<T> {
      match e
      case Init(t, _) => if IndexOf(queue, t) < |queue| then this else Initialised(t)
      case Tick => Ticked()
      case Call(c) => Obeyed(c)
      case Interrupt(scripts) => Interrupted(scripts)
    }
  }

  // A server after start-up.
  function Boot<T(==)>(lead: nat, minimum: Word): Schedule<T> {
    Schedule(1, lead, minimum, false, 0, [], 0, 0, [], [], [], map[])
  }

  function RunScript<T(==)>(s: Schedule<T>, commands: seq<Command<T>>): (r: Schedule<T>)
    ensures s.Steady(r)
  {
    if commands == [] then s
    else RunScript(s, commands[..|commands| - 1]).Obeyed(commands[|commands| - 1])
  }

  // The callbacks, one after the other.
  function RunScripts<T(==)>(s: Schedule<T>, scripts: seq<seq<Command<T>>>): (r: Schedule<T>)
    ensures s.Steady(r)
  {
    if scripts == [] then s
    else RunScript(RunScripts(s, scripts[..|scripts| - 1]), scripts[|scripts| - 1])
  }

  function Run<T(==)>(s: Schedule<T>, events: seq<Event<T>>): Schedule<T> {
    if events == [] then s else Run(s, events[..|events| - 1]).Next(events[|events| - 1])
  }

  lemma RunLast<T>(s: Schedule<T>, events: seq<Event<T>>, e: Event<T>)
    ensures Run(s, events + [e]) == Run(s, events).Next(e)
  {
    assert (events + [e])[..|events|] == events;
  }

  // ---------- operations on the queue ----------

  function IndexOf<T(==)>(q: seq<Pending<T>>, t: T): (i: nat)
    ensures i <= |q|
    ensures i < |q| ==> q[i].obj == t
    ensures forall j :: 0 <= j < i ==> q[j].obj != t
  {
    if q == [] then 0 else if q[0].obj == t then 0 else 1 + IndexOf(q[1..], t)
  }

  // Where an entry due at d belongs: behind every entry due at d or before.
  function Slot<T>(q: seq<Pending<T>>, d: nat): (p: nat)
    ensures p <= |q|
    ensures forall i :: 0 <= i < p ==> q[i].due <= d
    ensures p < |q| ==> d < q[p].due
  {
    if q == [] || d < q[0].due then 0 else 1 + Slot(q[1..], d)
  }

  function InsertAt<A>(q: seq<A>, p: nat, e: A): seq<A>
    requires p <= |q|
  {
    seq(|q| + 1, k requires 0 <= k <= |q| => if k < p then q[k] else if k == p then e else q[k - 1])
  }

  function RemoveAt<A>(q: seq<A>, i: nat): seq<A>
    requires i < |q|
  {
    seq(|q| - 1, k requires 0 <= k < |q| - 1 => if k < i then q[k] else q[k + 1])
  }

  function Delayed<T>(q: seq<Pending<T>>): seq<Pending<T>> {
    seq(|q|, i requires 0 <= i < |q| => q[i].(due := q[i].due + 1))
  }

  function Advanced<T>(q: seq<Pending<T>>, ticks: nat): seq<Pending<T>> {
    seq(|q|, i requires 0 <= i < |q| => q[i].(due := Monus(q[i].due, ticks)))
  }

  function Firings<T>(q: seq<Pending<T>>, at: nat, waited: nat, hwStarts: nat): seq<Firing<T>> {
    seq(|q|, i requires 0 <= i < |q| => Firing(q[i], at, waited, hwStarts))
  }

  lemma SlotUnique<T>(q: seq<Pending<T>>, d: nat, p: nat)
    requires forall i, j :: 0 <= i < j < |q| ==> q[i].due <= q[j].due
    requires p <= |q|
    requires p > 0 ==> q[p - 1].due <= d
    requires p < |q| ==> d < q[p].due
    ensures Slot(q, d) == p
  {
    var s := Slot(q, d);
    assert forall i :: 0 <= i < p ==> q[i].due <= q[p - 1].due;
  }

  // ---------- the invariant of every run ----------

  // Deadline order; equal deadlines keep the order of their starts.
  predicate Precedes<T>(a: Pending<T>, b: Pending<T>) {
    a.due < b.due || (a.due == b.due && a.serial < b.serial)
  }

  predicate Apart<T(==)>(a: Pending<T>, b: Pending<T>) {
    Precedes(a, b) && a.obj != b.obj
  }

  // A pending entry: not past, never further away than its own ReloadValue, and its deadline
  // is exactly what the ledger says.
  predicate Honest<T(==)>(s: Schedule<T>, e: Pending<T>) {
    && s.now <= e.due <= s.now + e.reload
    && e.started <= s.now
    && e.waitedThen <= s.waited
    && e.hwStartsThen <= |s.hwStarts|
    && e.due == e.started + e.reload + (s.waited - e.waitedThen) - Sum(s.hwStarts[e.hwStartsThen..])
    && e.serial < s.starts
    && e.reload == s.Reload(e.obj)
  }

  predicate Settled<T(==)>(s: Schedule<T>, f: Firing<T>) {
    && f.at == f.entry.due
    && f.entry.started <= f.at <= s.now
    && f.entry.waitedThen <= f.waitedNow <= s.waited
    && f.entry.hwStartsThen <= f.hwStartsNow <= |s.hwStarts|
    && f.at == f.entry.started + f.entry.reload
               + (f.waitedNow - f.entry.waitedThen) - Sum(s.hwStarts[f.entry.hwStartsThen..f.hwStartsNow])
  }

  ghost predicate QueueSound<T>(s: Schedule<T>) {
    && (forall i :: 0 <= i < |s.queue| ==> Honest(s, s.queue[i]))
    && (forall i, j :: 0 <= i < j < |s.queue| ==> Apart(s.queue[i], s.queue[j]))
  }

  ghost predicate LogSound<T>(s: Schedule<T>) {
    && (forall i :: 0 <= i < |s.fired| ==> Settled(s, s.fired[i]))
    && (forall i, j :: 0 <= i < j < |s.fired| ==> s.fired[i].at <= s.fired[j].at)
  }

  // No TimerHwStart brings a deadline forward by more than the lead.
  predicate ForwardsBounded<T(==)>(s: Schedule<T>) {
    forall i :: 0 <= i < |s.hwStarts| ==> s.hwStarts[i] <= s.lead
  }

  ghost predicate Sound<T>(s: Schedule<T>) {
    QueueSound(s) && LogSound(s) && ForwardsBounded(s)
  }

  lemma BootSound<T>(lead: nat, minimum: Word)
    ensures Sound(Boot<T>(lead, minimum))
  {
  }

  lemma InitSound<T>(s: Schedule<T>, t: T)
    requires Sound(s) && IndexOf(s.queue, t) == |s.queue|
    ensures Sound(s.Initialised(t))
  {
    var s' := s.Initialised(t);
    forall i | 0 <= i < |s.queue|
      ensures Honest(s', s.queue[i])
    {
      assert Honest(s, s.queue[i]);
    }
    LogKept(s, s');
  }

  // The log only looks at the clock, the slip and the past re-programmings.
  lemma LogKept<T>(s: Schedule<T>, s': Schedule<T>)
    requires LogSound(s) && s'.fired == s.fired
    requires s.now <= s'.now && s.waited <= s'.waited && s.hwStarts <= s'.hwStarts
    ensures LogSound(s')
  {
    forall i | 0 <= i < |s'.fired|
      ensures Settled(s', s'.fired[i])
    {
      var f := s.fired[i];
      assert Settled(s, f);
      assert s'.hwStarts[f.entry.hwStartsThen..f.hwStartsNow] == s.hwStarts[f.entry.hwStartsThen..f.hwStartsNow];
    }
  }

  lemma TickHonest<T>(s: Schedule<T>, i: nat)
    requires QueueSound(s) && i < |s.queue|
    ensures Honest(s.Ticked(), s.Ticked().queue[i])
  {
    assert Honest(s, s.queue[i]);
    assert i > 0 ==> Apart(s.queue[0], s.queue[i]);
  }

  lemma TickSound<T>(s: Schedule<T>)
    requires Sound(s)
    ensures Sound(s.Ticked())
  {
    var s' := s.Ticked();
    forall i | 0 <= i < |s'.queue|
      ensures Honest(s', s'.queue[i])
    {
      TickHonest(s, i);
    }
    forall i, j | 0 <= i < j < |s'.queue|
      ensures Apart(s'.queue[i], s'.queue[j])
    {
      assert Apart(s.queue[i], s.queue[j]);
    }
    LogKept(s, s');
  }

  lemma RunningFree<T>(s: Schedule<T>, r: bool)
    requires Sound(s)
    ensures Sound(s.(running := r))
  {
    var s' := s.(running := r);
    forall i | 0 <= i < |s.queue|
      ensures Honest(s', s.queue[i])
    {
      assert Honest(s, s.queue[i]);
    }
    LogKept(s, s');
  }

  // Nothing is brought forward beyond the present tick.
  lemma ForwardFits<T>(s: Schedule<T>, i: nat)
    requires QueueSound(s) && i < |s.queue|
    ensures s.Forward() <= s.lead && s.queue[i].due >= s.now + s.Forward()
    ensures s.Reprogrammed().queue[i] == s.queue[i].(due := s.queue[i].due - s.Forward())
  {
    assert i > 0 ==> Apart(s.queue[0], s.queue[i]);
    assert Honest(s, s.queue[0]);
  }

  lemma ReprogramHonest<T>(s: Schedule<T>, i: nat)
    requires QueueSound(s) && i < |s.queue|
    ensures Honest(s.Reprogrammed(), s.Reprogrammed().queue[i])
  {
    assert Honest(s, s.queue[i]);
    ForwardFits(s, i);
    SumFrom(s.hwStarts, s.Forward(), s.queue[i].hwStartsThen);
  }

  lemma ReprogramQueueSound<T>(s: Schedule<T>)
    requires QueueSound(s)
    ensures QueueSound(s.Reprogrammed())
  {
    var s' := s.Reprogrammed();
    forall i | 0 <= i < |s'.queue|
      ensures Honest(s', s'.queue[i])
    {
      ReprogramHonest(s, i);
    }
    forall i, j | 0 <= i < j < |s'.queue|
      ensures Apart(s'.queue[i], s'.queue[j])
    {
      assert Apart(s.queue[i], s.queue[j]);
      ForwardFits(s, i);
      ForwardFits(s, j);
    }
  }

  lemma ReprogramSound<T>(s: Schedule<T>)
    requires Sound(s)
    ensures Sound(s.Reprogrammed())
  {
    ReprogramQueueSound(s);
    LogKept(s, s.Reprogrammed());
  }

  lemma InsertPairwise<T>(q: seq<Pending<T>>, p: nat, e: Pending<T>)
    requires p <= |q|
    requires forall i, j :: 0 <= i < j < |q| ==> Apart(q[i], q[j])
    requires forall i :: 0 <= i < p ==> Apart(q[i], e)
    requires forall i :: p <= i < |q| ==> Apart(e, q[i])
    ensures forall i, j :: 0 <= i < j <= |q| ==> Apart(InsertAt(q, p, e)[i], InsertAt(q, p, e)[j])
  {
  }

  lemma InsertKeepsHonest<T>(s: Schedule<T>, t: T)
    requires QueueSound(s)
    ensures forall i :: 0 <= i <= |s.queue| ==> Honest(s.Inserted(t), s.Inserted(t).queue[i])
  {
    var p := s.PlaceOf(t);
    var s' := s.Inserted(t);
    forall i | 0 <= i <= |s.queue|
      ensures Honest(s', s'.queue[i])
    {
      if i != p {
        assert Honest(s, s.queue[if i < p then i else i - 1]);
      }
    }
  }

  lemma InsertQueueSound<T>(s: Schedule<T>, t: T)
    requires QueueSound(s) && IndexOf(s.queue, t) == |s.queue|
    ensures QueueSound(s.Inserted(t))
  {
    var p := s.PlaceOf(t);
    var e := s.NewEntry(t);
    forall i | 0 <= i < |s.queue|
      ensures if i < p then Apart(s.queue[i], e) else Apart(e, s.queue[i])
    {
      assert Honest(s, s.queue[i]);
      assert p < i ==> Apart(s.queue[p], s.queue[i]);
    }
    InsertPairwise(s.queue, p, e);
    InsertKeepsHonest(s, t);
  }

  lemma InsertSound<T>(s: Schedule<T>, t: T)
    requires Sound(s) && IndexOf(s.queue, t) == |s.queue|
    ensures Sound(s.Inserted(t))
  {
    InsertQueueSound(s, t);
    LogKept(s, s.Inserted(t));
  }

  lemma RemoveSound<T>(s: Schedule<T>, i: nat)
    requires Sound(s) && i < |s.queue|
    ensures Sound(s.Removed(i))
  {
    var s' := s.Removed(i);
    assert forall k :: 0 <= k < |s'.queue| ==> s'.queue[k] == s.queue[if k < i then k else k + 1];
    forall k | 0 <= k < |s'.queue|
      ensures Honest(s', s'.queue[k])
    {
      assert Honest(s, s.queue[if k < i then k else k + 1]);
    }
    LogKept(s, s');
  }

  lemma StartSound<T>(s: Schedule<T>, t: T)
    requires Sound(s)
    ensures Sound(s.Started(t))
  {
    if IndexOf(s.queue, t) == |s.queue| {
      InsertSound(s, t);
      if s.PlaceOf(t) == 0 {
        RunningFree(s.Inserted(t), true);
        ReprogramSound(s.Inserted(t).(running := true));
      }
    }
  }

  lemma RemoveGone<T>(s: Schedule<T>, t: T)
    requires QueueSound(s) && IndexOf(s.queue, t) < |s.queue|
    ensures var s' := s.Removed(IndexOf(s.queue, t)); IndexOf(s'.queue, t) == |s'.queue|
  {
    var i := IndexOf(s.queue, t);
    var s' := s.Removed(i);
    forall k | 0 <= k < |s'.queue|
      ensures s'.queue[k].obj != t
    {
      assert k >= i ==> Apart(s.queue[i], s.queue[k + 1]);
    }
  }

  // Moving deadlines moves no entry.
  lemma SameIndex<T>(q: seq<Pending<T>>, q': seq<Pending<T>>, t: T)
    requires |q| == |q'| && forall i :: 0 <= i < |q| ==> q[i].obj == q'[i].obj
    ensures IndexOf(q', t) == IndexOf(q, t)
  {
    var i, i' := IndexOf(q, t), IndexOf(q', t);
    assert i < |q| ==> q'[i].obj == t;
    assert i' < |q| ==> q[i'].obj == t;
  }

  lemma ReprogramIndex<T>(s: Schedule<T>, t: T)
    ensures IndexOf(s.Reprogrammed().queue, t) == IndexOf(s.queue, t)
    ensures |s.Reprogrammed().queue| == |s.queue|
  {
    SameIndex(s.queue, s.Reprogrammed().queue, t);
  }

  lemma StopSound<T>(s: Schedule<T>, t: T)
    requires Sound(s)
    ensures Sound(s.Stopped(t))
    ensures IndexOf(s.Stopped(t).queue, t) == |s.Stopped(t).queue|
  {
    var i := IndexOf(s.queue, t);
    if i < |s.queue| {
      RemoveSound(s, i);
      RemoveGone(s, t);
      ReprogramSound(s.Removed(i));
      ReprogramIndex(s.Removed(i), t);
    }
  }

  lemma RevalueSound<T>(s: Schedule<T>, t: T, value: Word)
    requires Sound(s)
    ensures Sound(s.Revalued(t, value))
  {
    StopSound(s, t);
    var a, b := s.Stopped(t), s.Revalued(t, value);
    assert b == a.(reload := b.reload);
    forall i | 0 <= i < |a.queue|
      ensures Honest(b, a.queue[i])
    {
      assert Honest(a, a.queue[i]);
    }
    LogKept(a, b);
  }

  lemma ObeySound<T>(s: Schedule<T>, c: Command<T>)
    requires Sound(s)
    ensures Sound(s.Obeyed(c))
  {
    match c
    case Start(t) => StartSound(s, t);
    case Stop(t) => StopSound(s, t);
    case Reset(t) => StopSound(s, t); StartSound(s.Stopped(t), t);
    case SetValue(t, v) => RevalueSound(s, t, v);
  }

  lemma {:induction false} ScriptSound<T>(s: Schedule<T>, commands: seq<Command<T>>)
    requires Sound(s)
    ensures Sound(RunScript(s, commands))
  {
    hide Sound;
    if commands != [] {
      var n := |commands| - 1;
      ScriptSound(s, commands[..n]);
      ObeySound(RunScript(s, commands[..n]), commands[n]);
    }
  }

  lemma {:induction false} ScriptsSound<T>(s: Schedule<T>, scripts: seq<seq<Command<T>>>)
    requires Sound(s)
    ensures Sound(RunScripts(s, scripts))
  {
    hide RunScript, Sound;
    if scripts != [] {
      var n := |scripts| - 1;
      ScriptsSound(s, scripts[..n]);
      ScriptSound(RunScripts(s, scripts[..n]), scripts[n]);
    }
  }

  // An interrupt takes exactly what is due: nothing that is due stays, nothing else goes.
  lemma DueExactly<T>(s: Schedule<T>)
    requires QueueSound(s)
    ensures forall i :: 0 <= i < s.DueCount() ==> s.queue[i].due == s.now
    ensures forall i :: s.DueCount() <= i < |s.queue| ==> s.queue[i].due > s.now
  {
    var k := s.DueCount();
    forall i | k <= i < |s.queue|
      ensures s.queue[i].due > s.now
    {
      assert i > k ==> Apart(s.queue[k], s.queue[i]);
    }
    forall i | 0 <= i < k
      ensures s.queue[i].due == s.now
    {
      assert Honest(s, s.queue[i]);
    }
  }

  lemma FireSettled<T>(s: Schedule<T>, e: Pending<T>)
    requires Honest(s, e) && e.due == s.now
    ensures Settled(s, Firing(e, s.now, s.waited, |s.hwStarts|))
  {
    assert s.hwStarts[e.hwStartsThen..|s.hwStarts|] == s.hwStarts[e.hwStartsThen..];
  }

  lemma ExpireLogSound<T>(s: Schedule<T>)
    requires Sound(s)
    ensures LogSound(s.Expired())
  {
    DueExactly(s);
    var s', n := s.Expired(), |s.fired|;
    forall i | 0 <= i < |s'.fired|
      ensures Settled(s', s'.fired[i])
      ensures i >= n ==> s'.fired[i].at == s.now
    {
      if i < n {
        assert Settled(s, s.fired[i]);
      } else {
        FireSettled(s, s.queue[i - n]);
      }
    }
  }

  lemma ExpireSound<T>(s: Schedule<T>)
    requires Sound(s)
    ensures Sound(s.Expired())
  {
    ExpireLogSound(s);
    var s', k := s.Expired(), s.DueCount();
    forall i | 0 <= i < |s'.queue|
      ensures Honest(s', s'.queue[i])
    {
      assert Honest(s, s.queue[k + i]);
    }
    forall i, j | 0 <= i < j < |s'.queue|
      ensures Apart(s'.queue[i], s'.queue[j])
    {
      assert Apart(s.queue[k + i], s.queue[k + j]);
    }
  }

  lemma ResumeSound<T>(s: Schedule<T>)
    requires Sound(s)
    ensures Sound(s.Resumed())
  {
    if s.queue != [] && s.running {
      RepeatSound(s);
    } else {
      ReprogramSound(s);
      RunningFree(s.Reprogrammed(), true);
    }
  }

  lemma RepeatSound<T>(s: Schedule<T>)
    requires Sound(s)
    ensures Sound(s.(hwStarts := s.hwStarts + [0], programmed := s.now))
  {
    var s' := s.(hwStarts := s.hwStarts + [0], programmed := s.now);
    forall i | 0 <= i < |s.queue|
      ensures Honest(s', s.queue[i])
    {
      assert Honest(s, s.queue[i]);
      SumFrom(s.hwStarts, 0, s.queue[i].hwStartsThen);
    }
    LogKept(s, s');
  }

  lemma InterruptSound<T>(s: Schedule<T>, scripts: seq<seq<Command<T>>>)
    requires Sound(s)
    ensures Sound(s.Interrupted(scripts))
  {
    if s.queue != [] {
      ExpireSound(s);
      ScriptsSound(s.Expired(), scripts);
      ResumeSound(RunScripts(s.Expired(), scripts));
    }
  }

  lemma NextSound<T>(s: Schedule<T>, e: Event<T>)
    requires Sound(s)
    ensures Sound(s.Next(e))
  {
    match e
    case Init(t, _) =>
      if IndexOf(s.queue, t) == |s.queue| {
        InitSound(s, t);
      }
    case Tick => TickSound(s);
    case Call(c) => ObeySound(s, c);
    case Interrupt(scripts) => InterruptSound(s, scripts);
  }

  lemma {:induction false} RunSound<T>(s: Schedule<T>, events: seq<Event<T>>)
    requires Sound(s)
    ensures Sound(Run(s, events))
  {
    if events != [] {
      var n := |events| - 1;
      RunSound(s, events[..n]);
      NextSound(Run(s, events[..n]), events[n]);
    }
  }
}
