/**
 * The walk of the interrupt handler.  It goes from one expired timer to the next through Next
 * pointers and goes on while it finds a zero Timestamp, but the callbacks in between may start,
 * stop and revalue the very timers that it has still to read.  This module says what the walk
 * reads after any callbacks, and hence when it serves exactly the expired timers.
 */
module TimerCallbacks {
  import opened Common
  import opened TimerSchedule
  import opened TimerTheorems

  // ---------- what the walk reads ----------

  // The two things that the walk reads of a timer: is its Timestamp zero, and what is its Next?
  datatype Cell<T> = Cell(zero: bool, next: Option<T>)

  // A pending timer's cell follows from the queue, except for the Timestamp of the head.  An idle
  // timer keeps the cell it had when it left the list.
  datatype View<T(==)> = View(idle: map<T, Cell<T>>, headZero: bool)

  function Successor<T(==)>(q: seq<Pending<T>>, t: T): Option<T> {
    var i := IndexOf(q, t);
    if i + 1 < |q| then Some(q[i + 1].obj) else None
  }

  function CellOf<T(==)>(s: Schedule<T>, v: View<T>, t: T): Cell<T> {
    var i := IndexOf(s.queue, t);
    if i < |s.queue| then
      Cell(if i == 0 then v.headZero else s.queue[i].due == s.queue[i - 1].due, Successor(s.queue, t))
    else if t in v.idle then v.idle[t]
    else Cell(false, None)
  }

  function AfterStart<T(==)>(s: Schedule<T>, v: View<T>, t: T): View<T> {
    if IndexOf(s.queue, t) == |s.queue| && s.PlaceOf(t) == 0 then v.(headZero := s.Reload(t) == 0) else v
  }

  // The stopped timer's cell stays as it is; its successor inherits its time.
  function AfterStop<T(==)>(s: Schedule<T>, v: View<T>, t: T): View<T> {
    var i := IndexOf(s.queue, t);
    if i == |s.queue| then v
    else View(v.idle[t := CellOf(s, v, t)],
              if i == 0 then |s.queue| > 1 && s.queue[1].due == s.now else v.headZero)
  }

  function AfterCall<T(==)>(s: Schedule<T>, v: View<T>, c: Command<T>): View<T> {
    match c
    case Start(t) => AfterStart(s, v, t)
    case Stop(t) => AfterStop(s, v, t)
    case Reset(t) => AfterStart(s.Stopped(t), AfterStop(s, v, t), t)
    case SetValue(t, value) =>
      var w := AfterStop(s, v, t);
      if t in w.idle then w.(idle := w.idle[t := w.idle[t].(zero := s.Raised(value) == 0)]) else w
  }

  // Only the cell of the call's own timer is taken down, if it leaves the list or is revalued.
  lemma IdleAfter<T>(s: Schedule<T>, v: View<T>, c: Command<T>)
    ensures AfterCall(s, v, c).idle
            == if c.Start? || (s.DueOf(c.obj) == None && (!c.SetValue? || c.obj !in v.idle)) then v.idle
               else v.idle[c.obj := if c.SetValue? then CellOf(s, v, c.obj).(zero := s.Raised(c.value) == 0)
                                    else CellOf(s, v, c.obj)]
  {
    hide Slot;
  }

  function AfterScript<T(==)>(s: Schedule<T>, v: View<T>, commands: seq<Command<T>>): View<T> {
    if commands == [] then v
    else
      var n := |commands| - 1;
      AfterCall(RunScript(s, commands[..n]), AfterScript(s, v, commands[..n]), commands[n])
  }

  lemma ScriptStep<T>(s: Schedule<T>, v: View<T>, commands: seq<Command<T>>, j: nat)
    requires j < |commands|
    ensures var r, w := RunScript(s, commands[..j]), AfterScript(s, v, commands[..j]);
            && RunScript(s, commands[..j + 1]) == r.Obeyed(commands[j])
            && AfterScript(s, v, commands[..j + 1]) == AfterCall(r, w, commands[j])
  {
    assert commands[..j + 1][..j] == commands[..j];
  }

  // Where the walk goes from t.
  function Onward<T(==)>(s: Schedule<T>, v: View<T>, t: T): Option<T> {
    match CellOf(s, v, t).next
    case None => None
    case Some(x) => if CellOf(s, v, x).zero then Some(x) else None
  }

  // Would a start of t leave its Timestamp zero?
  predicate ZeroStart<T(==)>(s: Schedule<T>, t: T) {
    var p := s.PlaceOf(t);
    if p == 0 then s.Reload(t) == 0 else s.queue[p - 1].due == s.now + s.Reload(t)
  }

  // ---------- the walk ----------

  function Objs<T>(q: seq<Pending<T>>): seq<T> {
    seq(|q|, i requires 0 <= i < |q| => q[i].obj)
  }

  function DueObjs<T>(s: Schedule<T>): seq<T> {
    Objs(s.queue[..s.DueCount()])
  }

  // After some rounds of the walk; the cursor is the timer whose callback is next.
  datatype Stage<T(==)> = Stage(schedule: Schedule<T>, view: View<T>, cursor: Option<T>)

  // The expired timers have just left the list, chained up to the first survivor.
  function Begin<T(==)>(s: Schedule<T>): Stage<T> {
    Stage(s.Expired(),
          View(map t | t in DueObjs(s) :: Cell(true, Successor(s.queue, t)), false),
          if s.DueCount() > 0 then Some(s.queue[0].obj) else None)
  }

  function Round<T(==)>(stage: Stage<T>, commands: seq<Command<T>>): Stage<T> {
    var s := RunScript(stage.schedule, commands);
    var v := AfterScript(stage.schedule, stage.view, commands);
    Stage(s, v, match stage.cursor case None => None case Some(t) => Onward(s, v, t))
  }

  function Rounds<T(==)>(s: Schedule<T>, scripts: seq<seq<Command<T>>>): Stage<T> {
    if scripts == [] then Begin(s) else Round(Rounds(s, scripts[..|scripts| - 1]), scripts[|scripts| - 1])
  }

  // The scripts belong to the callbacks of one whole walk: it makes a round for each of them, and
  // then it ends.
  predicate Complete<T(==)>(s: Schedule<T>, scripts: seq<seq<Command<T>>>) {
    && (forall i :: 0 <= i < |scripts| ==> Rounds(s, scripts[..i]).cursor.Some?)
    && Rounds(s, scripts).cursor == None
  }

  // The timers whose callbacks are run.
  function Visits<T(==)>(s: Schedule<T>, scripts: seq<seq<Command<T>>>): seq<T>
    requires Complete(s, scripts)
  {
    seq(|scripts|, i requires 0 <= i < |scripts| => Rounds(s, scripts[..i]).cursor.value)
  }

  // The callback of an expired timer, the last of those in done, leads on to the next expired
  // timer, and the last one to the end: its Next and the Timestamp behind it say so.
  predicate LeadsOn<T(==)>(s: Schedule<T>, done: seq<seq<Command<T>>>)
    requires 0 < |done| <= s.DueCount()
  {
    var r, v := Rounds(s, done).schedule, Rounds(s, done).view;
    Onward(r, v, s.queue[|done| - 1].obj)
    == if |done| < s.DueCount() then Some(s.queue[|done|].obj) else None
  }

  // A callback for every expired timer, each of which leads on.
  predicate OnCourse<T(==)>(s: Schedule<T>, scripts: seq<seq<Command<T>>>) {
    |scripts| == s.DueCount() && forall i :: 0 < i <= |scripts| ==> LeadsOn(s, scripts[..i])
  }

  lemma {:induction false} RoundsSchedule<T>(s: Schedule<T>, scripts: seq<seq<Command<T>>>)
    ensures Rounds(s, scripts).schedule == RunScripts(s.Expired(), scripts)
  {
    hide RunScript, AfterScript, Onward;
    if scripts != [] {
      RoundsSchedule(s, scripts[..|scripts| - 1]);
    }
  }

  lemma CursorStep<T>(s: Schedule<T>, scripts: seq<seq<Command<T>>>, i: nat)
    requires i < |scripts|
    ensures Rounds(s, scripts[..i + 1]) == Round(Rounds(s, scripts[..i]), scripts[i])
  {
    assert scripts[..i + 1][..i] == scripts[..i];
  }

  lemma RoundsLast<T>(s: Schedule<T>, done: seq<seq<Command<T>>>, commands: seq<Command<T>>)
    ensures Rounds(s, done + [commands]) == Round(Rounds(s, done), commands)
  {
    assert (done + [commands])[..|done|] == done;
  }

  // On course the cursor goes through the expired timers.
  lemma {:induction false} CursorOnCourse<T>(s: Schedule<T>, scripts: seq<seq<Command<T>>>, i: nat)
    requires OnCourse(s, scripts) && i <= |scripts|
    ensures Rounds(s, scripts[..i]).cursor == if i < |scripts| then Some(s.queue[i].obj) else None
  {
    hide RunScript, AfterScript, Onward;
    if i > 0 {
      CursorOnCourse(s, scripts, i - 1);
      CursorStep(s, scripts, i - 1);
      assert LeadsOn(s, scripts[..i]);
    }
  }

  lemma OnCourseCompletes<T>(s: Schedule<T>, scripts: seq<seq<Command<T>>>)
    requires OnCourse(s, scripts)
    ensures Complete(s, scripts) && Visits(s, scripts) == DueObjs(s)
  {
    hide Rounds, LeadsOn;
    forall i | 0 <= i <= |scripts|
      ensures Rounds(s, scripts[..i]).cursor == if i < |scripts| then Some(s.queue[i].obj) else None
    {
      CursorOnCourse(s, scripts, i);
    }
    assert scripts[..|scripts|] == scripts;
  }

  // A walk serves exactly the expired timers, once each and in order, if and only if every
  // callback leads on.  Only the state at the end of each callback matters.
  lemma OnCourseIff<T>(s: Schedule<T>, scripts: seq<seq<Command<T>>>)
    requires Complete(s, scripts)
    ensures Visits(s, scripts) == DueObjs(s) <==> OnCourse(s, scripts)
  {
    hide Rounds, Onward;
    if OnCourse(s, scripts) {
      OnCourseCompletes(s, scripts);
    } else if Visits(s, scripts) == DueObjs(s) {
      forall i | 0 < i <= |scripts|
        ensures LeadsOn(s, scripts[..i])
      {
        assert Visits(s, scripts)[i - 1] == DueObjs(s)[i - 1];
        assert i < |scripts| ==> Visits(s, scripts)[i] == DueObjs(s)[i];
        CursorStep(s, scripts, i - 1);
        assert i == |scripts| ==> scripts[..i] == scripts;
      }
    }
  }

  // The timers whose callbacks an event runs.
  function Served<T(==)>(s: Schedule<T>, e: Event<T>): seq<T> {
    if e.Interrupt? && Complete(s, e.scripts) then Visits(s, e.scripts) else []
  }

  // A callback and the tick at which it is run.
  datatype Callback<T> = Callback(obj: T, at: nat)

  function Stamp<T>(objs: seq<T>, at: nat): seq<Callback<T>> {
    seq(|objs|, i requires 0 <= i < |objs| => Callback(objs[i], at))
  }

  // Of the timers that the walk comes to, those whose callback is not NULL.
  function Callers<T(==)>(visits: seq<T>, callable: set<T>): seq<T> {
    if visits == [] then []
    else
      var n := |visits| - 1;
      Callers(visits[..n], callable) + if visits[n] in callable then [visits[n]] else []
  }

  // One more visit.
  lemma CallersLast<T>(before: seq<Callback<T>>, visits: seq<T>, t: T, callable: set<T>, at: nat)
    ensures before + Stamp(Callers(visits + [t], callable), at)
            == before + Stamp(Callers(visits, callable), at) + if t in callable then [Callback(t, at)] else []
  {
    assert (visits + [t])[..|visits|] == visits;
  }

  lemma NoCallers<T>(before: seq<Callback<T>>, callable: set<T>, at: nat)
    ensures before + Stamp(Callers([], callable), at) == before
  {
  }

  // A timer is called back as often as the walk comes to it, or never if its callback is NULL.
  lemma {:induction false} CallersOften<T>(visits: seq<T>, callable: set<T>, t: T)
    ensures multiset(Callers(visits, callable))[t] == if t in callable then multiset(visits)[t] else 0
  {
    if visits != [] {
      var n := |visits| - 1;
      CallersOften(visits[..n], callable, t);
      assert visits == visits[..n] + [visits[n]];
    }
  }

  // If no callback is NULL, the callbacks are the visits, in this order.
  lemma {:induction false} CallersAll<T>(visits: seq<T>, callable: set<T>)
    requires forall t :: t in visits ==> t in callable
    ensures Callers(visits, callable) == visits
  {
    if visits != [] {
      CallersAll(visits[..|visits| - 1], callable);
    }
  }

  // On course these are the timers that the interrupt takes off the queue, entry by entry.
  lemma OnCourseServes<T>(s: Schedule<T>, scripts: seq<seq<Command<T>>>)
    requires OnCourse(s, scripts)
    ensures Served(s, Interrupt(scripts)) == DueObjs(s)
    ensures s.Interrupted(scripts).fired == s.fired + Firings(s.queue[..s.DueCount()], s.now, s.waited, |s.hwStarts|)
  {
    hide RunScripts, Rounds, LeadsOn;
    OnCourseCompletes(s, scripts);
    if s.queue != [] {
      assert s.Interrupted(scripts).fired == s.Expired().fired;
    }
  }

  // Once a callback has restarted its own timer, its walk ends exactly if no entry behind it is
  // due with it.
  lemma RestartedEnds<T>(s: Schedule<T>, v: View<T>, t: T)
    requires QueueSound(s) && s.DueOf(t) != None
    ensures Onward(s, v, t) == None <==> !ZeroBehind(s, t)
  {
    var i := IndexOf(s.queue, t);
    if i + 1 < |s.queue| {
      DueAt(s, i + 1);
    }
  }

  // ---------- the gap behind a restarted timer ----------

  // Does the entry behind t have a zero delta?
  predicate ZeroBehind<T(==)>(s: Schedule<T>, t: T) {
    var i := IndexOf(s.queue, t);
    i + 1 < |s.queue| && s.queue[i + 1].due == s.queue[i].due
  }

  lemma ReprogramZeroBehind<T>(s: Schedule<T>, t: T)
    requires Sound(s)
    ensures ZeroBehind(s.Reprogrammed(), t) <==> ZeroBehind(s, t)
    ensures s.Reprogrammed().DueOf(t) != None <==> s.DueOf(t) != None
  {
    var i := IndexOf(s.queue, t);
    ReprogramIndex(s, t);
    if i + 1 < |s.queue| {
      ForwardFits(s, i);
      ForwardFits(s, i + 1);
    }
  }

  // A started timer's successor is strictly later, so a callback may restart its own timer.
  lemma StartLeavesGap<T>(s: Schedule<T>, t: T)
    requires Sound(s) && s.DueOf(t) == None
    ensures s.Started(t).DueOf(t) != None && !ZeroBehind(s.Started(t), t)
  {
    hide Sound, IndexOf, Slot;
    var s', p := s.Inserted(t), s.PlaceOf(t);
    InsertSound(s, t);
    assert s'.queue[p] == s.NewEntry(t);
    DueAt(s', p);
    assert p < |s.queue| ==> s'.queue[p + 1] == s.queue[p];
    if p == 0 {
      RunningFree(s', true);
      ReprogramZeroBehind(s'.(running := true), t);
    }
  }

  // A callback that has restarted its own timer a and then starts b: the walk, which reads Next
  // after the callback, finds a live timer with a zero Timestamp, and runs its callback at once,
  // if and only if b falls due together with a.
  lemma HazardStep<T>(s: Schedule<T>, a: T, b: T)
    requires Sound(s) && s.DueOf(a) != None && s.DueOf(b) == None && !ZeroBehind(s, a)
    ensures s.Started(b).DueOf(a) != None
    ensures ZeroBehind(s.Started(b), a) <==> s.DueOf(a) == Some(s.now + s.Reload(b))
  {
    var s' := s.Inserted(b);
    InsertSound(s, b);
    HazardInsert(s, a, b);
    if s.PlaceOf(b) == 0 {
      RunningFree(s', true);
      ReprogramZeroBehind(s'.(running := true), a);
    }
  }

  lemma HazardInsert<T>(s: Schedule<T>, a: T, b: T)
    requires Sound(s) && Sound(s.Inserted(b))
    requires s.DueOf(a) != None && s.DueOf(b) == None && !ZeroBehind(s, a)
    ensures s.Inserted(b).DueOf(a) == s.DueOf(a)
    ensures ZeroBehind(s.Inserted(b), a) <==> s.DueOf(a) == Some(s.now + s.Reload(b))
  {
    hide Sound, IndexOf, Slot, InsertAt;
    var i, p := IndexOf(s.queue, a), s.PlaceOf(b);
    InsertedAt(s, a, b);
    InsertedBehind(s, b, i);
    if i + 1 < p {
      assert s.queue[i + 1].due <= s.now + s.Reload(b);
    } else if p <= i {
      Orderly(s, p, i);
    }
  }

  lemma InsertedAt<T>(s: Schedule<T>, a: T, b: T)
    requires Sound(s.Inserted(b)) && IndexOf(s.queue, a) < |s.queue|
    ensures var s', i := s.Inserted(b), IndexOf(s.queue, a);
            var i' := if i < s.PlaceOf(b) then i else i + 1;
            IndexOf(s'.queue, a) == i' && s'.queue[i'] == s.queue[i]
  {
    hide Slot;
    var s', i := s.Inserted(b), IndexOf(s.queue, a);
    var i' := if i < s.PlaceOf(b) then i else i + 1;
    assert s'.queue[i'] == s.queue[i];
    DueAt(s', i');
  }

  // What follows the entry that was at position i, and when, after a start of b.
  lemma InsertedBehind<T>(s: Schedule<T>, b: T, i: nat)
    requires Sound(s) && i < |s.queue|
    ensures var q, p := s.Inserted(b).queue, s.PlaceOf(b);
            && |q| == |s.queue| + 1
            && (i + 1 == p ==> q[i + 1].due == s.now + s.Reload(b))
            && (i + 1 < p ==> q[i + 1] == s.queue[i + 1])
            && (p <= i && i + 1 < |s.queue| ==> q[i + 2] == s.queue[i + 1])
    ensures i + 1 < |s.queue| ==> s.queue[i].due <= s.queue[i + 1].due
  {
    hide IndexOf;
    assert i + 1 < |s.queue| ==> Apart(s.queue[i], s.queue[i + 1]);
  }

  lemma Orderly<T>(s: Schedule<T>, i: nat, j: nat)
    requires Sound(s) && i <= j < |s.queue|
    ensures s.queue[i].due <= s.queue[j].due
  {
    assert i < j ==> Apart(s.queue[i], s.queue[j]);
  }

  // ---------- callbacks that certainly lead on ----------

  lemma RemovedAt<T>(s: Schedule<T>, a: T, k: nat)
    requires k < |s.queue| && s.queue[k].obj != a && Sound(s.Removed(k)) && IndexOf(s.queue, a) < |s.queue|
    ensures var s', i := s.Removed(k), IndexOf(s.queue, a);
            var i' := if i < k then i else i - 1;
            IndexOf(s'.queue, a) == i' && s'.queue[i'] == s.queue[i]
  {
    hide Slot;
    var s', i := s.Removed(k), IndexOf(s.queue, a);
    var i' := if i < k then i else i - 1;
    assert s'.queue[i'] == s.queue[i];
    DueAt(s', i');
  }

  // TimerHwStart changes no Timestamp and no Next.
  lemma ReprogramCell<T>(s: Schedule<T>, v: View<T>, x: T)
    requires Sound(s)
    ensures CellOf(s.Reprogrammed(), v, x).zero == CellOf(s, v, x).zero
  {
    hide Successor;
    var i := IndexOf(s.queue, x);
    ReprogramIndex(s, x);
    if 0 < i < |s.queue| {
      ForwardFits(s, i - 1);
      ForwardFits(s, i);
    }
  }

  // A start never makes another timer's Timestamp zero.
  lemma StartKeepsPositive<T>(s: Schedule<T>, v: View<T>, b: T, x: T)
    requires Sound(s) && s.DueOf(b) == None && b != x && !CellOf(s, v, x).zero
    ensures !CellOf(s.Started(b), AfterStart(s, v, b), x).zero
  {
    hide Sound, Successor, IndexOf, Slot;
    var w, p, i := AfterStart(s, v, b), s.PlaceOf(b), IndexOf(s.queue, x);
    InsertSound(s, b);
    InsertDue(s, b, x);
    if i < |s.queue| {
      InsertedAt(s, x, b);
      InsertedBefore(s, b, i);
    }
    assert !CellOf(s.Inserted(b), w, x).zero;
    if p == 0 {
      RunningFree(s.Inserted(b), true);
      ReprogramCell(s.Inserted(b).(running := true), w, x);
    }
  }

  // What precedes the entry that was at position i after a start of b.
  lemma InsertedBefore<T>(s: Schedule<T>, b: T, i: nat)
    requires i < |s.queue|
    ensures var q, p := s.Inserted(b).queue, s.PlaceOf(b);
            && |q| == |s.queue| + 1
            && (0 < i < p ==> q[i - 1] == s.queue[i - 1])
            && (p < i ==> q[i] == s.queue[i - 1])
            && (i == p ==> q[i].due < s.queue[i].due)
  {
  }

  lemma StopIdles<T>(s: Schedule<T>, t: T, x: T)
    requires Sound(s) && (s.DueOf(x) == None || t == x)
    ensures s.Stopped(t).DueOf(x) == None && Sound(s.Stopped(t))
  {
    hide Sound, StopForwards, IndexOf;
    StopDue(s, t, x);
    StopSound(s, t);
  }

  // Nor does a stop.
  lemma StopKeepsPositive<T>(s: Schedule<T>, v: View<T>, b: T, x: T)
    requires Sound(s) && !CellOf(s, v, x).zero
    ensures !CellOf(s.Stopped(b), AfterStop(s, v, b), x).zero
  {
    hide Sound, Successor, IndexOf, Slot;
    StopIdles(s, b, b);
    var k := IndexOf(s.queue, b);
    if k < |s.queue| && b != x {
      RemoveSound(s, k);
      RemoveKeepsPositive(s, v, b, x);
      ReprogramCell(s.Removed(k), AfterStop(s, v, b), x);
    }
  }

  lemma RemoveKeepsPositive<T>(s: Schedule<T>, v: View<T>, b: T, x: T)
    requires IndexOf(s.queue, b) < |s.queue| && b != x
    requires Sound(s) && Sound(s.Removed(IndexOf(s.queue, b))) && !CellOf(s, v, x).zero
    ensures !CellOf(s.Removed(IndexOf(s.queue, b)), AfterStop(s, v, b), x).zero
  {
    hide Sound, Successor, IndexOf, Slot;
    var k, i := IndexOf(s.queue, b), IndexOf(s.queue, x);
    RemoveDue(s, k, x);
    if i < |s.queue| {
      RemovedAt(s, x, k);
      RemovedBefore(s, k, i);
    }
  }

  // What precedes the entry that was at position i once position k is gone.
  lemma RemovedBefore<T>(s: Schedule<T>, k: nat, i: nat)
    requires Sound(s) && k < |s.queue| && i < |s.queue| && i != k
    ensures var q := s.Removed(k).queue;
            && |q| == |s.queue| - 1
            && (0 < i < k ==> q[i - 1] == s.queue[i - 1])
            && (k + 1 < i ==> q[i - 2] == s.queue[i - 1])
            && (0 < k && i == k + 1 ==> q[i - 2] == s.queue[i - 2])
    ensures 0 < i ==> s.now <= s.queue[i - 1].due <= s.queue[i].due
    ensures 1 < i ==> s.queue[i - 2].due <= s.queue[i - 1].due
  {
    if 0 < i {
      assert Honest(s, s.queue[i - 1]);
      Orderly(s, i - 1, i);
      if 1 < i {
        Orderly(s, i - 2, i - 1);
      }
    }
  }

  // A stop, or a call on a timer that the walk has nothing to do with.
  predicate PoliteCall<T(==)>(s: Schedule<T>, c: Command<T>) {
    c.Stop? || forall m :: 0 <= m <= s.DueCount() && m < |s.queue| ==> s.queue[m].obj != c.obj
  }

  // The walk's cells are as at its beginning: s before the interrupt, r and v now.
  ghost predicate Undisturbed<T>(s: Schedule<T>, r: Schedule<T>, v: View<T>) {
    && Sound(r)
    && (forall t :: t in DueObjs(s) ==>
          r.DueOf(t) == None && t in v.idle && v.idle[t] == Cell(true, Successor(s.queue, t)))
    && (s.DueCount() < |s.queue| ==> !CellOf(r, v, s.queue[s.DueCount()].obj).zero)
  }

  lemma BeginsUndisturbed<T>(s: Schedule<T>)
    requires Sound(s)
    ensures Undisturbed(s, s.Expired(), Begin(s).view)
  {
    hide QueueSound, LogSound, Slot, IndexOf;
    ExpireSound(s);
    DueExactly(s);
    var k := s.DueCount();
    forall t | t in DueObjs(s)
      ensures s.Expired().DueOf(t) == None
    {
      var m :| 0 <= m < k && s.queue[m].obj == t;
      DueAt(s, m);
      ExpireDue(s, t);
    }
    if k < |s.queue| {
      assert s.Expired().queue[0] == s.queue[k];
      DueAt(s.Expired(), 0);
    }
  }

  lemma StartIdles<T>(s: Schedule<T>, t: T, x: T)
    requires Sound(s) && s.DueOf(x) == None && t != x
    ensures s.Started(t).DueOf(x) == None
  {
    hide Sound, StartForwards, IndexOf;
    StartDue(s, t, x);
  }

  lemma OthersIdle<T>(s: Schedule<T>, x: T, c: Command<T>)
    requires Sound(s) && s.DueOf(x) == None && (c.Stop? || c.obj != x)
    ensures s.Obeyed(c).DueOf(x) == None
  {
    hide Sound, IndexOf, Slot;
    StopIdles(s, c.obj, x);
    if c.Start? {
      StartIdles(s, c.obj, x);
    } else if c.Reset? {
      StartIdles(s.Stopped(c.obj), c.obj, x);
    }
  }

  lemma SurvivorStays<T>(s: Schedule<T>, v: View<T>, c: Command<T>, x: T)
    requires Sound(s) && !CellOf(s, v, x).zero && (c.Stop? || c.obj != x)
    ensures !CellOf(s.Obeyed(c), AfterCall(s, v, c), x).zero
  {
    hide Sound, CellOf, AfterStart, AfterStop;
    match c
    case Start(t) => StartStays(s, v, t, x);
    case Stop(t) => StopKeepsPositive(s, v, t, x);
    case Reset(t) =>
      StopKeepsPositive(s, v, t, x);
      StopSound(s, t);
      StartStays(s.Stopped(t), AfterStop(s, v, t), t, x);
    case SetValue(t, value) =>
      StopKeepsPositive(s, v, t, x);
      SameQueueCell(s.Stopped(t), s.Revalued(t, value), AfterStop(s, v, t), AfterCall(s, v, c), x);
  }

  lemma StartStays<T>(s: Schedule<T>, v: View<T>, t: T, x: T)
    requires Sound(s) && !CellOf(s, v, x).zero && t != x
    ensures !CellOf(s.Started(t), AfterStart(s, v, t), x).zero
  {
    hide Sound, CellOf, Slot;
    if s.DueOf(t) == None {
      StartKeepsPositive(s, v, t, x);
    } else {
      assert s.Started(t) == s && AfterStart(s, v, t) == v;
    }
  }

  lemma SameQueueCell<T>(s: Schedule<T>, s': Schedule<T>, v: View<T>, w: View<T>, x: T)
    requires s'.queue == s.queue && w.headZero == v.headZero
    requires (x in w.idle <==> x in v.idle) && (x in v.idle ==> w.idle[x] == v.idle[x])
    ensures CellOf(s', w, x) == CellOf(s, v, x)
  {
  }

  lemma PoliteStep<T>(s: Schedule<T>, r: Schedule<T>, v: View<T>, c: Command<T>)
    requires Undisturbed(s, r, v) && PoliteCall(s, c)
    ensures Undisturbed(s, r.Obeyed(c), AfterCall(r, v, c))
  {
    hide Sound, CellOf, AfterCall, Successor, Slot, IndexOf;
    ObeySound(r, c);
    IdleAfter(r, v, c);
    forall t | t in DueObjs(s)
      ensures c.Stop? || c.obj != t
      ensures r.Obeyed(c).DueOf(t) == None
    {
      var m :| 0 <= m < s.DueCount() && s.queue[m].obj == t;
      OthersIdle(r, t, c);
    }
    if s.DueCount() < |s.queue| {
      SurvivorStays(r, v, c, s.queue[s.DueCount()].obj);
    }
  }

  lemma {:induction false} PoliteScript<T>(s: Schedule<T>, r: Schedule<T>, v: View<T>, commands: seq<Command<T>>)
    requires Undisturbed(s, r, v) && forall c :: c in commands ==> PoliteCall(s, c)
    ensures Undisturbed(s, RunScript(r, commands), AfterScript(r, v, commands))
  {
    hide Undisturbed, PoliteCall, AfterCall;
    if commands != [] {
      var n := |commands| - 1;
      PoliteScript(s, r, v, commands[..n]);
      PoliteStep(s, RunScript(r, commands[..n]), AfterScript(r, v, commands[..n]), commands[n]);
    }
  }

  lemma {:induction false} PoliteRounds<T>(s: Schedule<T>, scripts: seq<seq<Command<T>>>)
    requires Sound(s) && forall i, c :: 0 <= i < |scripts| && c in scripts[i] ==> PoliteCall(s, c)
    ensures Undisturbed(s, Rounds(s, scripts).schedule, Rounds(s, scripts).view)
  {
    hide Undisturbed, PoliteCall, RunScript, AfterScript, Sound, Onward;
    if scripts == [] {
      BeginsUndisturbed(s);
    } else {
      var n := |scripts| - 1;
      PoliteRounds(s, scripts[..n]);
      var stage := Rounds(s, scripts[..n]);
      PoliteScript(s, stage.schedule, stage.view, scripts[n]);
    }
  }

  // Where nothing is disturbed every expired timer leads on.
  lemma UndisturbedLeads<T>(s: Schedule<T>, done: seq<seq<Command<T>>>)
    requires Sound(s) && 0 < |done| <= s.DueCount()
    requires Undisturbed(s, Rounds(s, done).schedule, Rounds(s, done).view)
    ensures LeadsOn(s, done)
  {
    hide QueueSound, LogSound, Rounds, Slot, IndexOf;
    var i, r, v := |done|, Rounds(s, done).schedule, Rounds(s, done).view;
    var t := s.queue[i - 1].obj;
    DueAt(s, i - 1);
    assert t == DueObjs(s)[i - 1] && t in DueObjs(s);
    assert r.DueOf(t) == None && v.idle[t] == Cell(true, Successor(s.queue, t));
    assert CellOf(r, v, t).next == if i < |s.queue| then Some(s.queue[i].obj) else None;
    if i < s.DueCount() {
      assert s.queue[i].obj == DueObjs(s)[i] && s.queue[i].obj in DueObjs(s);
      assert CellOf(r, v, s.queue[i].obj).zero;
    }
  }

  // The last callback ends by resetting its own timer, or by starting it if it has not done so before.
  predicate EndsRestarting<T(==)>(commands: seq<Command<T>>, self: T) {
    commands != [] &&
    var m := |commands| - 1;
    || commands[m] == Reset(self)
    || (commands[m] == Start(self) &&
          forall j :: 0 <= j < m ==> commands[j].obj != self || commands[j].Stop? || commands[j].SetValue?)
  }

  // The callbacks, a script for each expired timer, make polite calls only; the last one may make
  // any calls if it ends by restarting its own timer.
  predicate Polite<T(==)>(s: Schedule<T>, scripts: seq<seq<Command<T>>>) {
    && |scripts| == s.DueCount()
    && (forall i, c :: 0 <= i < |scripts| && c in scripts[i] ==>
          PoliteCall(s, c) || (i == |scripts| - 1 && EndsRestarting(scripts[i], s.queue[i].obj)))
  }

  // A rule for callbacks that needs no look at the cells: polite callbacks lead on.
  lemma PoliteOnCourse<T>(s: Schedule<T>, scripts: seq<seq<Command<T>>>)
    requires Sound(s) && Polite(s, scripts)
    ensures OnCourse(s, scripts)
  {
    hide Sound, Undisturbed, LeadsOn, Rounds, PoliteCall, EndsRestarting;
    forall i | 0 < i <= |scripts|
      ensures LeadsOn(s, scripts[..i])
    {
      if i == |scripts| && EndsRestarting(scripts[i - 1], s.queue[i - 1].obj) {
        RestartLeads(s, scripts);
        assert scripts[..i] == scripts;
      } else {
        forall m, c | 0 <= m < i && c in scripts[..i][m]
          ensures PoliteCall(s, c)
        {
          assert c in scripts[m];
        }
        PoliteRounds(s, scripts[..i]);
        UndisturbedLeads(s, scripts[..i]);
      }
    }
  }

  lemma RestartLeads<T>(s: Schedule<T>, scripts: seq<seq<Command<T>>>)
    requires Sound(s) && Polite(s, scripts) && scripts != []
    requires EndsRestarting(scripts[|scripts| - 1], s.queue[|scripts| - 1].obj)
    ensures LeadsOn(s, scripts)
  {
    hide Sound, PoliteCall, Begin, Onward;
    var n := |scripts| - 1;
    var t, last, m := s.queue[n].obj, scripts[n], |scripts[n]| - 1;
    forall i, c | 0 <= i < n && c in scripts[..n][i]
      ensures PoliteCall(s, c)
    {
      assert c in scripts[i];
    }
    PoliteRounds(s, scripts[..n]);
    var stage := Rounds(s, scripts[..n]);
    var r, v := RunScript(stage.schedule, last[..m]), AfterScript(stage.schedule, stage.view, last[..m]);
    ScriptSound(stage.schedule, last[..m]);
    assert DueObjs(s)[n] == t && t in DueObjs(s);
    if last[m] == Start(t) {
      forall c | c in last[..m]
        ensures c.obj != t || c.Stop? || c.SetValue?
      {
        var j :| 0 <= j < m && last[j] == c;
      }
      StaysIdle(stage.schedule, last[..m], t);
    }
    RestartEndsWalk(r, v, t, last[m]);
  }

  // No start, no entry.
  lemma {:induction false} StaysIdle<T>(s: Schedule<T>, commands: seq<Command<T>>, t: T)
    requires Sound(s) && s.DueOf(t) == None
    requires forall c :: c in commands ==> c.obj != t || c.Stop? || c.SetValue?
    ensures RunScript(s, commands).DueOf(t) == None && Sound(RunScript(s, commands))
  {
    hide Sound, IndexOf;
    if commands != [] {
      var n := |commands| - 1;
      StaysIdle(s, commands[..n], t);
      var r, c := RunScript(s, commands[..n]), commands[n];
      ObeySound(r, c);
      if c.obj == t {
        StopIdles(r, t, t);
      } else {
        OthersIdle(r, t, c);
      }
    }
  }

  lemma RestartEndsWalk<T>(r: Schedule<T>, v: View<T>, t: T, c: Command<T>)
    requires Sound(r) && (c == Reset(t) || (c == Start(t) && r.DueOf(t) == None))
    ensures Onward(r.Obeyed(c), AfterCall(r, v, c), t) == None
  {
    hide Sound, Onward, AfterCall, ZeroBehind, IndexOf, Slot;
    var q := if c.Reset? then r.Stopped(t) else r;
    StopIdles(r, t, t);
    StartLeavesGap(q, t);
    StartSound(q, t);
    RestartedEnds(q.Started(t), AfterCall(r, v, c), t);
  }

  // ---------- a walk without end ----------

  // x and y are pending, nothing else, and y falls due with x, behind it.
  predicate Twins<T(==)>(s: Schedule<T>, v: Word, x: T, y: T) {
    && x != y && s.lead == 0 && s.Reload(x) == v && s.Reload(y) == v
    && |s.queue| == 2 && s.queue[0].obj == x && s.queue[1].obj == y
    && s.queue[0].due == s.now + v == s.queue[1].due
  }

  lemma TwinsLead<T>(s: Schedule<T>, view: View<T>, v: Word, x: T, y: T)
    requires Twins(s, v, x, y)
    ensures Onward(s, view, x) == Some(y)
  {
  }

  // The callback of y, which resets x, makes y the first of the two.
  lemma TwinsSwap<T>(s: Schedule<T>, view: View<T>, v: Word, x: T, y: T)
    requires Twins(s, v, x, y)
    ensures Twins(s.Obeyed(Reset(x)), v, y, x)
    ensures Onward(s.Obeyed(Reset(x)), AfterCall(s, view, Reset(x)), y) == Some(x)
  {
    hide Onward, AfterCall;
    var q := s.Stopped(x);
    assert |q.queue| == 1 && q.queue[0].obj == y && q.queue[0].due == s.now + v;
    SlotUnique(q.queue, q.now + v, 1);
    var r := q.Started(x);
    assert r.queue[0] == q.queue[0] && r.queue[1] == q.NewEntry(x);
    TwinsLead(s.Obeyed(Reset(x)), AfterCall(s, view, Reset(x)), v, y, x);
  }

  // The script of round n in a walk that goes back and forth between x and y.
  function BackAndForth<T>(x: T, y: T, n: nat): seq<seq<Command<T>>> {
    if n == 0 then [[Start(x), Start(y)]]
    else BackAndForth(x, y, n - 1) + [if n % 2 == 1 then [Reset(x)] else [Reset(y)]]
  }

  lemma RoundOne<T>(stage: Stage<T>, c: Command<T>)
    ensures Round(stage, [c]).schedule == stage.schedule.Obeyed(c)
    ensures Round(stage, [c]).view == AfterCall(stage.schedule, stage.view, c)
  {
    hide Onward;
    var cs := [c];
    assert cs[..0] == [] && cs[..1] == cs;
    ScriptStep(stage.schedule, stage.view, cs, 0);
  }

  lemma RoundTwo<T>(stage: Stage<T>, c: Command<T>, d: Command<T>)
    ensures Round(stage, [c, d]).schedule == stage.schedule.Obeyed(c).Obeyed(d)
  {
    hide Onward;
    var cs := [c, d];
    assert cs[..0] == [] && cs[..2] == cs;
    ScriptStep(stage.schedule, stage.view, cs, 0);
    ScriptStep(stage.schedule, stage.view, cs, 1);
  }

  lemma TwinsOpen<T>(s: Schedule<T>, v: Word, x: T, y: T)
    requires x != y && s.lead == 0 && s.queue == [] && s.Reload(x) == v && s.Reload(y) == v
    ensures Twins(s.Started(x).Started(y), v, x, y)
  {
    var q := s.Started(x);
    assert s.Inserted(x).queue == [s.NewEntry(x)];
    assert |q.queue| == 1 && q.queue[0].obj == x && q.queue[0].due == q.now + v;
    SlotUnique(q.queue, q.now + v, 1);
    assert q.Started(y).queue == [q.queue[0], q.NewEntry(y)];
  }

  // Two timers of the same value, of which one has expired: if each callback resets the other
  // timer, after the first has started both, the walk goes on for any number of rounds.
  lemma {:induction false} EndlessWalk<T>(s: Schedule<T>, v: Word, x: T, y: T, n: nat)
    requires x != y && s.lead == 0 && s.Reload(x) == v && s.Reload(y) == v
    requires |s.queue| == 1 && s.queue[0].obj == x && s.queue[0].due == s.now
    ensures Rounds(s, BackAndForth(x, y, n)).cursor == Some(if n % 2 == 0 then y else x)
    ensures Twins(Rounds(s, BackAndForth(x, y, n)).schedule, v, if n % 2 == 0 then x else y, if n % 2 == 0 then y else x)
  {
    hide Twins, Begin, Round, Rounds;
    if n == 0 {
      EndlessBegin(s, v, x, y);
    } else {
      var prefix, self, other := BackAndForth(x, y, n - 1), if n % 2 == 1 then y else x, if n % 2 == 1 then x else y;
      EndlessWalk(s, v, x, y, n - 1);
      assert BackAndForth(x, y, n) == prefix + [[Reset(other)]];
      RoundsLast(s, prefix, [Reset(other)]);
      EndlessStep(Rounds(s, prefix), v, other, self);
    }
  }

  lemma EndlessBegin<T>(s: Schedule<T>, v: Word, x: T, y: T)
    requires x != y && s.lead == 0 && s.Reload(x) == v && s.Reload(y) == v
    requires |s.queue| == 1 && s.queue[0].obj == x && s.queue[0].due == s.now
    ensures var r := Rounds(s, BackAndForth(x, y, 0));
            r.cursor == Some(y) && Twins(r.schedule, v, x, y)
  {
    hide AfterScript, RunScript, Onward, Twins;
    SlotUnique(s.queue, s.now, 1);
    TwinsOpen(s.Expired(), v, x, y);
    TwinsLead(s.Expired().Started(x).Started(y), Round(Begin(s), [Start(x), Start(y)]).view, v, x, y);
    RoundTwo(Begin(s), Start(x), Start(y));
    assert BackAndForth(x, y, 0)[..0] == [];
    assert Rounds(s, BackAndForth(x, y, 0)) == Round(Begin(s), [Start(x), Start(y)]);
  }

  lemma EndlessStep<T>(stage: Stage<T>, v: Word, x: T, y: T)
    requires Twins(stage.schedule, v, x, y) && stage.cursor == Some(y)
    ensures Round(stage, [Reset(x)]).cursor == Some(x) && Twins(Round(stage, [Reset(x)]).schedule, v, y, x)
  {
    hide AfterCall, Onward, Twins, RunScript, AfterScript;
    RoundOne(stage, Reset(x));
    TwinsSwap(stage.schedule, stage.view, v, x, y);
  }

  // If the callback of y makes no calls, the walk ends there; but y, which was idle before the
  // interrupt and falls due only v ticks after it, has been called back.
  lemma StrayWalk<T>(s: Schedule<T>, v: Word, x: T, y: T)
    requires x != y && s.lead == 0 && s.Reload(x) == v && s.Reload(y) == v
    requires |s.queue| == 1 && s.queue[0].obj == x && s.queue[0].due == s.now
    ensures var e := Interrupt([[Start(x), Start(y)], []]);
            && Complete(s, e.scripts) && Served(s, e) == [x, y] && DueObjs(s) == [x]
            && s.Next(e).DueOf(y) == Some(s.now + v)
  {
    hide RunScript, AfterScript, Twins, Onward, Round, IndexOf;
    var scripts: seq<seq<Command<T>>> := [[Start(x), Start(y)], []];
    SlotUnique(s.queue, s.now, 1);
    EndlessBegin(s, v, x, y);
    assert scripts[..0] == [] && scripts[..1] == BackAndForth(x, y, 0) && scripts[..2] == scripts;
    CursorStep(s, scripts, 1);
    TwinsEnd(Rounds(s, scripts[..1]), v, x, y);
    RoundsSchedule(s, scripts);
    TwinsResumed(Rounds(s, scripts).schedule, v, x, y);
  }

  lemma TwinsEnd<T>(stage: Stage<T>, v: Word, x: T, y: T)
    requires Twins(stage.schedule, v, x, y) && stage.cursor == Some(y)
    ensures Round(stage, []).cursor == None && Twins(Round(stage, []).schedule, v, x, y)
  {
  }

  lemma TwinsResumed<T>(s: Schedule<T>, v: Word, x: T, y: T)
    requires Twins(s, v, x, y)
    ensures s.Resumed().DueOf(y) == Some(s.now + v)
  {
    var q := s.Resumed().queue;
    assert |q| == 2 && q[0].obj == x && q[1].obj == y && q[1].due == s.now + v;
    assert IndexOf(q, y) == 1;
  }
}
