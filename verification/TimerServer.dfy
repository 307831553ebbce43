/**
 * The software timer server: a singly linked list of caller-owned timer objects multiplexed
 * onto one hardware countdown.  A node stores only the time after its predecessor; the head's
 * time counts from the last TimerHwStart.
 *
 * Valid() couples the list to the ghost schedule of TimerSchedule: one equation for the head
 * and one per adjacent pair, so an operation that rewrites two deltas re-proves two equations.
 * Each method states that the schedule takes the corresponding abstract step, hence every
 * theorem about runs of the schedule is a theorem about this list.
 */
module TimerServer {
  import opened Common
  import opened TimerSchedule
  import opened DeltaList
  import opened TimerCells
  import opened TimerTheorems
  import opened TimerCallbacks

  class Server {
    var listHead: TimerEvent?

    // The board: tick counter, tick of the last TimerHwStart, and the value it was given.
    var ticks: nat
    var context: nat
    var timeout: Word
    const lead: Word     // 1 on this board: TimerHwGetElapsedTime adds one tick
    const minimum: Word  // 1 on this board

    ghost var hwStarts: nat            // the number of TimerHwStart calls so far
    ghost var nodes: seq<TimerEvent>   // the linked objects, head first
    ghost var gaps: seq<nat>           // the delta list: time left for the head, then the deltas
    ghost var timers: set<TimerEvent>  // every initialised object
    ghost var callable: set<TimerEvent>  // those with a callback
    ghost var called: seq<Callback<TimerEvent>>  // every callback made so far
    ghost var serving: bool            // between unlinking expired objects and the final restart
    ghost var spec: Schedule<TimerEvent>

    function Elapsed(): int
      reads this
    {
      ticks - context + lead
    }

    // Ticks until the head is due.
    ghost function Remaining(): nat
      reads this, listHead
    {
      if listHead == null then 0
      else if listHead.isRunning then Monus(listHead.timestamp, Elapsed())
      else listHead.timestamp
    }

    // The reading is cut to 32 bits; this says that the cut does not revive an expired head.
    ghost predicate ReadingExact()
      reads this, listHead
    {
      listHead != null && listHead.isRunning ==>
        Elapsed() < WORD_LIMIT || Elapsed() % WORD_LIMIT >= listHead.timestamp
    }

    // The ghost state in itself: the gaps encode the schedule, which knows the board and the
    // objects.
    ghost predicate Synced()
      reads this, timers
    {
      && context <= ticks
      && spec.now == ticks && spec.lead == lead && spec.minimum == minimum
      && (forall i :: 0 <= i < |nodes| ==> nodes[i] in timers)
      && |spec.queue| == |nodes| == |gaps|
      && Encodes(spec.queue, ticks, nodes, gaps)
      && Registered(spec.reload)
    }

    // The initialised objects bear the values that the schedule knows.
    ghost predicate Registered(reload: map<TimerEvent, Word>)
      reads `timers, `callable, timers`reloadValue, timers`hasCallback
    {
      forall t :: t in timers ==>
        && t.reloadValue == (if t in reload then reload[t] else 0)
        && (t.hasCallback <==> t in callable)
    }

    lemma RegisteredAs(t: TimerEvent)
      requires Registered(spec.reload) && t in timers
      ensures spec.Reload(t) == t.reloadValue && (t.hasCallback <==> t in callable)
    {
    }

    // Every linked object, and so the head, is initialised.
    lemma LinkedKnown()
      requires Valid() || Ready()
      ensures forall t :: t in nodes ==> t in timers
      ensures if listHead == null then nodes == [] else nodes != [] && listHead == nodes[0] && listHead in nodes
    {
      hide Encodes, Registered;
    }

    // A timer is pending exactly if it is linked.
    lemma Pends(t: TimerEvent)
      requires Valid()
      ensures spec.DueOf(t) != None <==> t in nodes
      ensures t !in nodes ==> spec.Stopped(t) == spec && IndexOf(spec.queue, t) == |spec.queue|
      ensures t in nodes ==> spec.Started(t) == spec && t in timers
    {
      hide Encodes, Registered;
      PendingIffLinked(spec, nodes, gaps, t);
    }

    // The schedule knows how often and when the hardware has been programmed.
    ghost predicate Counted()
      reads this
    {
      hwStarts == |spec.hwStarts| && context == spec.programmed
    }

    // The hardware is programmed for the head, whose gap is what it still has to count.
    ghost predicate HeadCounts()
      requires Synced()
      reads this, timers, listHead
    {
      nodes != [] ==>
        && gaps[0] == Remaining()
        && spec.running == nodes[0].isRunning
        && (!serving ==> nodes[0].isRunning)
        && (nodes[0].isRunning ==> timeout == nodes[0].timestamp)
        && (nodes[0].isRunning && serving ==> context == ticks)
    }

    ghost predicate Valid()
      reads this, timers, listHead
    {
      Synced() && Chain(listHead, nodes, gaps) && HeadCounts() && Counted()
    }

    // Valid, except for how the cells are linked.
    ghost predicate Rewired()
      reads this, timers, listHead
    {
      Synced() && listHead == At(nodes, 0) && HeadCounts() && Counted()
    }

    // What the handler finds when it has stopped counting for the head: no callback has started
    // the head yet, and its Timestamp says what it has to count from now on.
    ghost predicate Paused()
      reads this, timers
    {
      && Synced() && Chain(listHead, nodes, gaps) && Counted()
      && (nodes != [] ==> gaps[0] == nodes[0].timestamp)
    }

    ghost predicate Ready()
      reads this, timers, listHead
    {
      serving && (Valid() || (!spec.running && Paused()))
    }

    constructor (lead: Word, minimum: Word)
      ensures Valid() && !serving && nodes == [] && timers == callable == {} && called == []
      ensures spec == Boot(lead, minimum) && Sound(spec)
      ensures ticks == 1 && context == timeout == hwStarts == 0
      ensures this.lead == lead && this.minimum == minimum
    {
      BootSound<TimerEvent>(lead, minimum);
      listHead := null;
      ticks, context, timeout := 1, 0, 0;
      this.lead, this.minimum := lead, minimum;
      hwStarts, nodes, gaps, timers, callable, called, serving := 0, [], [], {}, {}, [], false;
      spec := Boot(lead, minimum);
    }

    // TimerInit on an object that is not linked; the server learns to know it.
    method Initialise(obj: TimerEvent, callback: bool)
      requires Valid() && obj !in nodes
      modifies `timers, `callable, `spec, obj
      ensures Valid() && timers == old(timers) + {obj}
      ensures callable == if callback then old(callable) + {obj} else old(callable) - {obj}
      ensures spec == old(spec).Initialised(obj)
    {
      obj.TimerInit(callback);
      timers := timers + {obj};
      callable := if callback then callable + {obj} else callable - {obj};
      spec := spec.Initialised(obj);
    }

    // One tick of the hardware counter.
    method TimerIncrementTickCounter()
      requires Valid() && !serving
      modifies `ticks, `gaps, `spec
      ensures Valid() && ticks == old(ticks) + 1
      ensures spec == old(spec).Ticked()
    {
      TickEncodes(spec, nodes, gaps);
      ticks := ticks + 1;
      spec := spec.Ticked();
      gaps := HeadLess(gaps, 1);
    }

    method TimerHwStart(value: Word)
      modifies `context, `timeout, `hwStarts
      ensures context == ticks && timeout == value && hwStarts == old(hwStarts) + 1
    {
      context := ticks;
      timeout := value;
      hwStarts := hwStarts + 1;
    }

    method TimerGetValue() returns (value: Word)
      requires context <= ticks
      ensures value == Elapsed() % WORD_LIMIT
    {
      value := Elapsed() % WORD_LIMIT;
    }

    method TimerSetTimeout(obj: TimerEvent)
      modifies `context, `timeout, `hwStarts
      ensures context == ticks && timeout == obj.timestamp && hwStarts == old(hwStarts) + 1
    {
      TimerHwStart(obj.timestamp);
    }

    method TimerExists(obj: TimerEvent) returns (found: bool)
      requires Valid()
      ensures found <==> obj in nodes
    {
      hide Encodes, Registered, Distinct;
      var cur := listHead;
      ghost var i := 0;
      while cur != null
        invariant 0 <= i <= |nodes| && cur == At(nodes, i)
        invariant obj !in nodes[..i]
        decreases |nodes| - i
      {
        if cur == obj {
          return true;
        }
        cur := cur.next;
        i := i + 1;
      }
      return false;
    }

    // What the head still has to count, read from the hardware and cut off at zero.
    method RemainingTime() returns (remainingTime: Word)
      requires context <= ticks && listHead != null
      ensures ReadingExact() ==> remainingTime == Remaining()
    {
      if listHead.isRunning {
        var elapsedTime := TimerGetValue();
        if elapsedTime > listHead.timestamp {
          elapsedTime := listHead.timestamp;
        }
        remainingTime := listHead.timestamp - elapsedTime;
      } else {
        remainingTime := listHead.timestamp;
      }
    }

    // ---------- starting ----------

    method TimerInsertNewHeadTimer(obj: TimerEvent, remainingTime: Word)
      requires Valid() && obj in timers && obj !in nodes && obj.timestamp == obj.reloadValue
      requires listHead != null ==> remainingTime == Remaining() && obj.timestamp < remainingTime
      modifies `listHead, `context, `timeout, `hwStarts, `nodes, `gaps, `spec, obj, listHead
      ensures Valid() && listHead == obj && context == ticks
      ensures old(spec).PlaceOf(obj) == 0 && nodes == InsertAt(old(nodes), 0, obj)
      ensures spec == old(spec).Started(obj)
      ensures obj.timestamp == old(obj.timestamp)
      ensures old(listHead) != null ==> old(listHead).timestamp > 0
    {
      hide Encodes, Registered;
      var cur := listHead;
      if cur != null {
        cur.timestamp := remainingTime - obj.timestamp;
        cur.isRunning := false;
      }
      obj.next := cur;
      obj.isRunning := true;
      listHead := obj;
      TimerSetTimeout(listHead);
      NoteNewHead(obj);
    }

    // The gaps with the old head's time counted from the new head.
    ghost function Behind(time: Word): seq<nat>
      requires gaps != [] ==> time < gaps[0]
      reads this
    {
      if gaps == [] then [] else gaps[0 := gaps[0] - time]
    }

    // Proof step of TimerInsertNewHeadTimer: the cells are written, the ghost state follows.
    ghost method NoteNewHead(obj: TimerEvent)
      requires Synced() && hwStarts == |spec.hwStarts| + 1 && obj in timers && obj !in nodes
      requires gaps != [] ==> obj.timestamp < gaps[0]
      requires Chain(At(nodes, 0), nodes, Behind(obj.timestamp))
      requires nodes != [] ==> !nodes[0].isRunning && nodes[0].timestamp == gaps[0] - obj.timestamp
      requires obj == listHead && obj.next == At(nodes, 0)
      requires obj.isRunning && obj.timestamp == obj.reloadValue == timeout && context == ticks
      modifies `nodes, `gaps, `spec
      ensures Valid()
      ensures old(spec).PlaceOf(obj) == 0 && nodes == InsertAt(old(nodes), 0, obj)
      ensures spec == old(spec).Started(obj)
    {
      hide Encodes, Registered;
      RegisteredAs(obj);
      NewHeadEncodes(spec, nodes, gaps, obj);
      ChainNewHead(obj, nodes, Behind(obj.timestamp), Monus(obj.timestamp, lead));
      var after := Split(gaps, 0, obj.timestamp)[0 := Monus(obj.timestamp, lead)];
      assert after == InsertAt(Behind(obj.timestamp), 0, Monus(obj.timestamp, lead));
      InsertAtMembers(nodes, obj);
      gaps := after;
      nodes := InsertAt(nodes, 0, obj);
      spec := spec.Started(obj);
    }

    // Proof step of TimerInsertTimer: obj has been written into the list at position p.
    ghost method NoteBehind(obj: TimerEvent, p: nat)
      requires Rewired() && 1 <= p <= |nodes| && Bridged(nodes, gaps, p, obj)
      requires obj in timers
      requires spec.Reload(obj) == spec.queue[p - 1].due - ticks + obj.timestamp
      requires p < |nodes| ==> ticks + spec.Reload(obj) < spec.queue[p].due
      modifies `nodes, `gaps, `spec
      ensures Valid()
      ensures p == old(spec).PlaceOf(obj) && nodes == InsertAt(old(nodes), p, obj)
      ensures spec == old(spec).Started(obj)
    {
      hide Encodes, Registered, Slot, IndexOf;
      BehindEncodes(spec, nodes, gaps, obj, p, obj.timestamp);
      ChainBridge(obj, nodes, gaps, p);
      InsertAtMembers(nodes, obj);
      gaps := Split(gaps, p, obj.timestamp);
      nodes := InsertAt(nodes, p, obj);
      spec := spec.Started(obj);
    }

    // Writes obj between prev and cur: what all three insertion sites of the C function do,
    // two of them with cur known to be NULL.
    method Link(prev: TimerEvent, obj: TimerEvent, cur: TimerEvent?, aggregated: Word, ghost p: nat)
      requires Valid() && obj in timers && obj !in nodes
      requires obj.timestamp == obj.reloadValue && !obj.isRunning
      requires 1 <= p <= |nodes| && prev == nodes[p - 1] && cur == At(nodes, p)
      requires aggregated == spec.queue[p - 1].due - ticks <= obj.timestamp
      requires p < |nodes| ==> obj.timestamp < spec.queue[p].due - ticks
      modifies `nodes, `gaps, `spec, prev, obj, cur
      ensures Valid()
      ensures p == old(spec).PlaceOf(obj) && nodes == InsertAt(old(nodes), p, obj)
      ensures spec == old(spec).Started(obj)
      ensures obj.timestamp == old(obj.timestamp) - aggregated
      ensures prev.timestamp == old(prev.timestamp) && (cur != null ==> cur.timestamp > 0)
    {
      BehindEncodes(spec, nodes, gaps, obj, p, obj.timestamp - aggregated);
      WriteBetween(prev, obj, cur, aggregated, p);
      NoteBehind(obj, p);
    }

    method WriteBetween(prev: TimerEvent, obj: TimerEvent, cur: TimerEvent?, aggregated: Word, ghost p: nat)
      requires Valid() && obj in timers && obj !in nodes && !obj.isRunning
      requires 1 <= p <= |nodes| && prev == nodes[p - 1] && cur == At(nodes, p)
      requires aggregated <= obj.timestamp
      requires p < |nodes| ==> obj.timestamp - aggregated < gaps[p]
      modifies prev, obj, cur
      ensures Rewired() && Bridged(nodes, gaps, p, obj)
      ensures obj.timestamp == old(obj.timestamp) - aggregated && obj.reloadValue == old(obj.reloadValue)
      ensures prev.timestamp == old(prev.timestamp) && (cur != null ==> cur.timestamp > 0)
    {
      hide Encodes, Registered;
      obj.timestamp := obj.timestamp - aggregated;
      if cur != null {
        cur.timestamp := cur.timestamp - obj.timestamp;
      }
      prev.next := obj;
      obj.next := cur;
    }

    method TimerInsertTimer(obj: TimerEvent, remainingTime: Word)
      requires Valid() && obj in timers && obj !in nodes
      requires obj.timestamp == obj.reloadValue && !obj.isRunning
      requires listHead != null && remainingTime == Remaining() <= obj.timestamp
      modifies `nodes, `gaps, `spec, obj, nodes
      ensures Valid() && listHead.timestamp == old(listHead.timestamp)
      ensures 1 <= old(spec).PlaceOf(obj) <= |old(nodes)| == |old(spec).queue|
      ensures nodes == InsertAt(old(nodes), old(spec).PlaceOf(obj), obj)
      ensures spec == old(spec).Started(obj)
      ensures obj.timestamp == old(obj.timestamp) - (old(spec).queue[old(spec).PlaceOf(obj) - 1].due - ticks)
      ensures forall t :: t in old(nodes) && old(t.timestamp) > 0 ==> t.timestamp > 0
    {
      var prev, cur, aggregated;
      ghost var i;
      prev, cur, aggregated, i := FindPlace(obj.timestamp, remainingTime);
      Link(prev, obj, cur, aggregated, i);
    }

    // The walk of TimerInsertTimer, with the sum of the gaps up to prev.
    method FindPlace(timestamp: Word, remainingTime: Word)
      returns (prev: TimerEvent, cur: TimerEvent?, aggregated: Word, ghost i: nat)
      requires Valid() && listHead != null && remainingTime == Remaining() <= timestamp
      ensures 1 <= i <= |nodes| == |spec.queue| && prev == nodes[i - 1] && cur == At(nodes, i)
      ensures aggregated == spec.queue[i - 1].due - ticks <= timestamp
      ensures i < |nodes| ==> timestamp < spec.queue[i].due - ticks
    {
      NoWrap(spec.queue, ticks, nodes, gaps, 0);
      prev := listHead;
      cur := listHead.next;
      aggregated := remainingTime;
      i := 1;
      if cur == null {
        return;  // a list of one: behind it
      }
      NoWrap(spec.queue, ticks, nodes, gaps, 1);
      var aggregatedNext: Word := remainingTime + cur.timestamp;
      // Every run of this loop ends in a break: the place is found exactly once.
      var p: TimerEvent? := prev;
      while p != null
        invariant p == prev
        invariant 1 <= i < |nodes| && prev == nodes[i - 1] && cur == nodes[i]
        invariant aggregated == spec.queue[i - 1].due - ticks <= timestamp
        invariant aggregatedNext == spec.queue[i].due - ticks
        decreases |nodes| - i
      {
        if aggregatedNext > timestamp {
          break;
        } else {
          prev := cur;
          p := prev;
          cur := cur.next;
          i := i + 1;
          aggregated := aggregatedNext;
          if cur == null {
            break;  // behind the last node
          } else {
            NoWrap(spec.queue, ticks, nodes, gaps, i);
            aggregatedNext := aggregatedNext + cur.timestamp;
          }
        }
      }
    }

    // Takes a reading of the hardware only if obj is to be linked.
    method TimerStart(obj: TimerEvent?)
      requires Valid() && (obj != null && obj !in nodes ==> obj in timers && ReadingExact())
      modifies `listHead, `context, `timeout, `hwStarts, `nodes, `gaps, `spec, nodes, obj
      ensures Valid()
      ensures obj == null || obj in old(nodes) ==>
                nodes == old(nodes) && spec == old(spec) && unchanged(`listHead, `context, nodes)
      ensures obj != null ==> spec == old(spec).Started(obj) && obj in nodes
      ensures obj != null && obj !in old(nodes) ==> Placed(obj, old(spec), old(listHead), old(context))
      ensures forall i :: 0 <= i < |nodes| ==> nodes[i] in old(nodes) || nodes[i] == obj
      ensures forall t :: t in old(nodes) ==> t in nodes
      ensures listHead != null && listHead == old(listHead) ==> listHead.timestamp == old(listHead.timestamp)
      ensures forall t :: t in old(nodes) && old(t.timestamp) > 0 ==> t.timestamp > 0
    {
      hide Encodes, Registered, Chain;
      if obj == null {
        return;
      }
      var linked := TimerExists(obj);
      if linked {
        Pends(obj);
        return;
      }
      StartUnlinked(obj);
    }

    // Where a start has put obj: it is the new head, and the hardware counts for it, or it is
    // behind the old one, which the hardware goes on counting for.
    ghost predicate Placed(obj: TimerEvent, s: Schedule<TimerEvent>, head: TimerEvent?, start: nat)
      reads this, obj
    {
      && (obj.timestamp == 0 <==> ZeroStart(s, obj))
      && (if s.PlaceOf(obj) == 0 then listHead == obj && obj.timestamp == s.Reload(obj) && context == ticks
          else listHead == head && context == start)
    }

    // The part of TimerStart behind its guards.
    method StartUnlinked(obj: TimerEvent)
      requires Valid() && ReadingExact() && obj in timers && obj !in nodes
      modifies `listHead, `context, `timeout, `hwStarts, `nodes, `gaps, `spec, nodes, obj
      ensures Valid()
      ensures spec == old(spec).Started(obj) && obj in nodes
      ensures Placed(obj, old(spec), old(listHead), old(context))
      ensures forall i :: 0 <= i < |nodes| ==> nodes[i] in old(nodes) || nodes[i] == obj
      ensures forall t :: t in old(nodes) ==> t in nodes
      ensures listHead != null && listHead == old(listHead) ==> listHead.timestamp == old(listHead.timestamp)
      ensures forall t :: t in old(nodes) && old(t.timestamp) > 0 ==> t.timestamp > 0
    {
      hide Encodes, Registered, Slot;
      Prepare(obj);
      RegisteredAs(obj);
      InsertAtMembers(nodes, obj);
      InsertAtHas(nodes, obj);
      if listHead == null {
        TimerInsertNewHeadTimer(obj, obj.timestamp);
      } else {
        var remainingTime := RemainingTime();
        if obj.timestamp < remainingTime {
          TimerInsertNewHeadTimer(obj, remainingTime);
        } else {
          TimerInsertTimer(obj, remainingTime);
        }
      }
    }

    method Prepare(obj: TimerEvent)
      requires Valid() && obj in timers && obj !in nodes
      modifies obj
      ensures Valid() && (old(ReadingExact()) ==> ReadingExact())
      ensures obj.timestamp == obj.reloadValue == old(obj.reloadValue) && !obj.isRunning
    {
      hide Encodes, Registered;
      obj.timestamp := obj.reloadValue;
      obj.isRunning := false;
    }

    // ---------- stopping ----------

    // Proof step of TimerStop: position i has been bypassed in the list.
    ghost method NoteGone(i: nat)
      requires Synced() && i < |nodes| && Bypassed(nodes, gaps, i)
      requires i > 0 ==> Rewired()
      requires i == 0 ==> Unheaded()
      modifies `nodes, `gaps, `spec
      ensures Valid()
      ensures nodes == RemoveAt(old(nodes), i)
      ensures spec == old(spec).Stopped(old(nodes)[i])
    {
      hide Encodes, Registered;
      StopEncodes(spec, nodes, gaps, i);
      ChainBypass(nodes, gaps, i);
      RemoveAtMembers(nodes, i);
      var t := nodes[i];
      gaps := if i == 0 && spec.running then HeadLess(Merge(gaps, i), lead) else Merge(gaps, i);
      nodes := RemoveAt(nodes, i);
      spec := spec.Stopped(t);
    }

    // The head has been passed by: its successor counts, if the head did.
    ghost predicate Unheaded()
      requires Synced()
      reads this, timers, listHead
    {
      && nodes != [] && listHead == At(nodes, 1)
      && (listHead != null ==>
            && spec.running == listHead.isRunning
            && (if spec.running then timeout == listHead.timestamp && context == ticks else serving))
      && (if spec.running && listHead != null then hwStarts == |spec.hwStarts| + 1 else Counted())
    }

    // The part of TimerStop for the head.
    method StopHead()
      requires Valid() && listHead != null && (listHead.next != null ==> ReadingExact())
      modifies `listHead, `context, `timeout, `hwStarts, `nodes, `gaps, `spec, nodes
      ensures Valid() && (old(ReadingExact()) ==> ReadingExact())
      ensures spec == old(spec).Stopped(old(listHead))
      ensures nodes == RemoveAt(old(nodes), 0) && old(listHead).next == old(listHead.next)
      ensures old(listHead).timestamp == old(listHead.timestamp)
      ensures listHead != null ==> |old(spec).queue| > 1 && listHead.timestamp == old(spec).queue[1].due - ticks
      ensures forall t :: t in old(nodes) && old(t.timestamp) > 0 ==> t.timestamp > 0
    {
      hide Encodes, Registered;
      NoWrap(spec.queue, ticks, nodes, gaps, 0);
      if |nodes| > 1 {
        NoWrap(spec.queue, ticks, nodes, gaps, 1);
      }
      if listHead.isRunning {
        StopRunningHead();
      } else {
        // No reading: the hardware does not count for this head yet.
        if listHead.next != null {
          var remainingTime := listHead.timestamp;
          listHead := listHead.next;
          listHead.timestamp := listHead.timestamp + remainingTime;
        } else {
          listHead := null;
        }
        NoteGone(0);
      }
    }

    method StopRunningHead()
      requires Valid() && listHead != null && listHead.isRunning && (listHead.next != null ==> ReadingExact())
      requires |nodes| > 1 ==> gaps[0] + gaps[1] == spec.queue[1].due - ticks < WORD_LIMIT
      modifies `listHead, `context, `timeout, `hwStarts, `nodes, `gaps, `spec, nodes
      ensures Valid() && (old(ReadingExact()) ==> ReadingExact())
      ensures spec == old(spec).Stopped(old(listHead))
      ensures nodes == RemoveAt(old(nodes), 0) && old(listHead).next == old(listHead.next)
      ensures old(listHead).timestamp == old(listHead.timestamp)
      ensures listHead != null ==> |old(spec).queue| > 1 && listHead.timestamp == old(spec).queue[1].due - ticks
      ensures forall t :: t in old(nodes) && old(t.timestamp) > 0 ==> t.timestamp > 0
    {
      hide Encodes, Registered;
      var remainingTime := RemainingTime();
      if listHead.next != null {
        listHead.isRunning := false;
        listHead := listHead.next;
        listHead.timestamp := listHead.timestamp + remainingTime;
        listHead.isRunning := true;
        TimerSetTimeout(listHead);
      } else {
        listHead := null;
      }
      NoteGone(0);
    }

    // The part of TimerStop for an object that is not the head.
    method StopInner(obj: TimerEvent)
      requires Valid() && listHead != null && obj != listHead
      modifies `nodes, `gaps, `spec, nodes
      ensures Valid() && (old(ReadingExact()) ==> ReadingExact())
      ensures spec == old(spec).Stopped(obj)
      ensures obj !in old(nodes) ==> nodes == old(nodes) && unchanged(old(nodes))
      ensures obj !in nodes && forall i :: 0 <= i < |nodes| ==> nodes[i] in old(nodes)
      ensures forall t :: t in old(nodes) && t != obj ==> t in nodes
      ensures obj.next == old(obj.next) && obj.timestamp == old(obj.timestamp)
      ensures listHead.timestamp == old(listHead.timestamp)
      ensures forall t :: t in old(nodes) && old(t.timestamp) > 0 ==> t.timestamp > 0
    {
      hide Encodes, Registered;
      var remainingTime := obj.timestamp;
      var prev, cur := listHead, listHead;
      ghost var i := 0;
      while cur != null
        invariant 0 <= i <= |nodes| && cur == At(nodes, i)
        invariant i > 0 ==> prev == nodes[i - 1]
        invariant obj !in nodes[..i]
        decreases |nodes| - i
      {
        if cur == obj {
          break;
        }
        prev := cur;
        cur := cur.next;
        i := i + 1;
      }
      if cur == null {
        Pends(obj);
      } else {
        RemoveAtMembers(nodes, i);
        Bypass(prev, cur, remainingTime, i);
      }
    }

    // Takes cur out from behind prev; its successor inherits its gap.
    method Bypass(prev: TimerEvent, cur: TimerEvent, remainingTime: Word, ghost i: nat)
      requires Valid()
      requires 1 <= i < |nodes| && prev == nodes[i - 1] && cur == nodes[i]
      requires remainingTime == cur.timestamp
      modifies `nodes, `gaps, `spec, nodes
      ensures Valid() && (old(ReadingExact()) ==> ReadingExact())
      ensures spec == old(spec).Stopped(cur)
      ensures nodes == RemoveAt(old(nodes), i) && cur.next == old(cur.next) && cur.timestamp == old(cur.timestamp)
      ensures listHead != null && listHead.timestamp == old(listHead.timestamp)
      ensures forall t :: t in old(nodes) && old(t.timestamp) > 0 ==> t.timestamp > 0
    {
      hide Encodes, Registered, Bypassed;
      NoWrap(spec.queue, ticks, nodes, gaps, i);
      WriteAround(prev, cur, remainingTime, i);
      NoteGone(i);
    }

    method WriteAround(prev: TimerEvent, cur: TimerEvent, remainingTime: Word, ghost i: nat)
      requires Valid()
      requires 1 <= i < |nodes| && prev == nodes[i - 1] && cur == nodes[i]
      requires remainingTime == cur.timestamp
      requires i + 1 < |nodes| ==> gaps[i] + gaps[i + 1] < WORD_LIMIT
      modifies prev, cur.next
      ensures Rewired() && Bypassed(nodes, gaps, i)
      ensures listHead != null && listHead.timestamp == old(listHead.timestamp)
      ensures listHead.isRunning == old(listHead.isRunning)
      ensures forall t :: t in nodes ==> t.timestamp >= old(t.timestamp)
      ensures cur.next == old(cur.next) && cur.timestamp == old(cur.timestamp)
    {
      hide Encodes, Registered;
      var next := cur.next;
      prev.next := next;
      if next != null {
        next.timestamp := next.timestamp + remainingTime;
      }
    }

    // Takes a reading of the hardware only for the head, and uses it if there is a next one.
    method TimerStop(obj: TimerEvent?)
      requires Valid() && (obj != null && obj == listHead && obj.next != null ==> ReadingExact())
      modifies `listHead, `context, `timeout, `hwStarts, `nodes, `gaps, `spec, nodes
      ensures Valid() && (old(ReadingExact()) ==> ReadingExact())
      ensures obj == null ==> spec == old(spec)
      ensures obj != null ==> spec == old(spec).Stopped(obj)
      ensures obj != null ==> obj.next == old(obj.next) && obj.timestamp == old(obj.timestamp)
      ensures obj !in nodes && forall i :: 0 <= i < |nodes| ==> nodes[i] in old(nodes)
      ensures forall t :: t in old(nodes) && t != obj ==> t in nodes
      ensures HeadAfter(obj, old(spec), old(listHead), old(HeadTime()))
      ensures obj == null || obj !in old(nodes) ==> unchanged(old(nodes)) && nodes == old(nodes)
      ensures forall t :: t in old(nodes) && old(t.timestamp) > 0 ==> t.timestamp > 0
    {
      hide Encodes, Registered;
      if listHead == null || obj == null {
        return;
      }
      if listHead == obj {
        RemoveAtMembers(nodes, 0);
        StopHead();
      } else {
        StopInner(obj);
      }
    }

    ghost function HeadTime(): Word
      reads this, listHead
    {
      if listHead == null then 0 else listHead.timestamp
    }

    // What is at the head, and with what Timestamp, after obj has been stopped: a successor has
    // inherited the time of the head, any other head is left alone.
    ghost predicate HeadAfter(obj: TimerEvent?, s: Schedule<TimerEvent>, head: TimerEvent?, time: Word)
      reads this, listHead
    {
      listHead != null ==>
        if obj == head then |s.queue| > 1 && listHead.timestamp == s.queue[1].due - s.now
        else listHead == head && listHead.timestamp == time
    }

    // Takes a reading unless the list is empty without obj.
    method TimerReset(obj: TimerEvent?)
      requires Valid() && (obj != null ==> obj in timers)
      requires obj != null && (obj == listHead ==> obj.next != null) ==> ReadingExact()
      modifies `listHead, `context, `timeout, `hwStarts, `nodes, `gaps, `spec, nodes, obj
      ensures Valid()
      ensures obj == null ==> spec == old(spec)
      ensures obj != null ==> spec == old(spec).Obeyed(Reset(obj)) && obj in nodes
      ensures obj != null ==> (obj.timestamp == 0 <==> ZeroStart(old(spec).Stopped(obj), obj))
      ensures obj != null ==> (listHead == obj <==> old(spec).Stopped(obj).PlaceOf(obj) == 0)
      ensures obj != null ==> old(spec).Stopped(obj).DueOf(obj) == None
      ensures forall i :: 0 <= i < |nodes| ==> nodes[i] in old(nodes) || nodes[i] == obj
      ensures forall t :: t in old(nodes) ==> t in nodes
      ensures listHead != obj ==> HeadAfter(obj, old(spec), old(listHead), old(HeadTime()))
      ensures forall t :: t in old(nodes) && t != obj && old(t.timestamp) > 0 ==> t.timestamp > 0
    {
      hide Encodes, Registered;
      TimerStop(obj);
      if obj != null {
        Pends(obj);
      }
      TimerStart(obj);
    }

    method TimerSetValue(obj: TimerEvent, value: Word)
      requires Valid() && obj in timers && (obj == listHead && obj.next != null ==> ReadingExact())
      modifies `listHead, `context, `timeout, `hwStarts, `nodes, `gaps, `spec, nodes, obj
      ensures Valid()
      ensures spec == old(spec).Revalued(obj, value)
      ensures obj !in nodes && forall i :: 0 <= i < |nodes| ==> nodes[i] in old(nodes)
      ensures forall t :: t in old(nodes) && t != obj ==> t in nodes
      ensures obj !in old(nodes) ==> nodes == old(nodes)
      ensures HeadAfter(obj, old(spec), old(listHead), old(HeadTime()))
      ensures obj.next == old(obj.next) && obj.timestamp == obj.reloadValue == old(spec).Raised(value)
      ensures forall t :: t in old(nodes) && t != obj && old(t.timestamp) > 0 ==> t.timestamp > 0
    {
      hide Encodes, Registered, Chain;
      TimerStop(obj);
      LinkedKnown();
      Revalue(obj, if value < minimum then minimum else value);
    }

    // The last part of TimerSetValue: obj is not linked any more.
    method Revalue(obj: TimerEvent, value: Word)
      requires Valid() && obj in timers && obj !in nodes
      modifies `spec, obj
      ensures Valid() && spec == old(spec).(reload := old(spec).reload[obj := value])
      ensures obj.next == old(obj.next) && obj.timestamp == obj.reloadValue == value
    {
      obj.timestamp := value;
      obj.reloadValue := value;
      spec := spec.(reload := spec.reload[obj := value]);
    }

    // Does this call use a reading of the hardware?
    ghost predicate Reads(c: Command<TimerEvent>)
      reads this, c.obj
    {
      match c
      case Start(t) => t !in nodes
      case Stop(t) => t == listHead && t.next != null
      case Reset(t) => t == listHead ==> t.next != null
      case SetValue(t, v) => t == listHead && t.next != null
    }

    // One call, made by the program or from a callback.
    method Execute(c: Command<TimerEvent>)
      requires Valid() && c.obj in timers && (Reads(c) ==> ReadingExact())
      modifies `listHead, `context, `timeout, `hwStarts, `nodes, `gaps, `spec, timers
      ensures Valid() && spec == old(spec).Obeyed(c)
      ensures Effect(c, old(spec), old(listHead), old(HeadTime()))
      ensures Spared(c)
    {
      hide Valid, ZeroStart, IndexOf, Slot, InsertAt, RemoveAt, Schedule.Started, Schedule.Stopped, Schedule.DueOf;
      Pends(c.obj);
      LinkedKnown();
      match c
      case Start(t) => TimerStart(t);
      case Stop(t) => TimerStop(t);
      case Reset(t) => TimerReset(t);
      case SetValue(t, v) => TimerSetValue(t, v);
    }

    // What a call has left alone: every cell that was not linked, every other link, and the cell
    // of a stopped object.
    twostate predicate Spared(c: Command<TimerEvent>)
      reads this, timers, c.obj
    {
      && timers == old(timers)
      && (forall t :: t in old(timers) && t !in old(nodes) && (c.Stop? || t != c.obj) ==>
            t !in nodes && t.timestamp == old(t.timestamp) && t.next == old(t.next))
      && (forall t :: t in old(nodes) && t != c.obj ==> t in nodes)
      && (c.Stop? || c.SetValue? ==> c.obj.next == old(c.obj.next))
      && (c.Stop? || (c.Start? && c.obj in old(nodes)) ==> c.obj.timestamp == old(c.obj.timestamp))
    }

    // What a call has done to its own object and to the head.
    ghost predicate Effect(c: Command<TimerEvent>, s: Schedule<TimerEvent>, head: TimerEvent?, time: Word)
      reads this, c.obj, listHead
    {
      match c
      case Start(t) =>
        && t in nodes
        && (s.DueOf(t) == None ==>
              (t.timestamp == 0 <==> ZeroStart(s, t)) && (listHead == t <==> s.PlaceOf(t) == 0))
        && (s.DueOf(t) != None ==> listHead == head)
        && (listHead != null && listHead != t ==> listHead == head && listHead.timestamp == time)
      case Stop(t) => t !in nodes && HeadAfter(t, s, head, time)
      case Reset(t) =>
        && t in nodes
        && s.Stopped(t).DueOf(t) == None
        && (t.timestamp == 0 <==> ZeroStart(s.Stopped(t), t)) && (listHead == t <==> s.Stopped(t).PlaceOf(t) == 0)
        && (listHead != t ==> HeadAfter(t, s, head, time))
      case SetValue(t, v) => t !in nodes && t.timestamp == s.Raised(v) && HeadAfter(t, s, head, time)
    }

    // ---------- what the walk reads ----------

    // The cell of t as the walk reads it.
    ghost predicate Shows(t: TimerEvent, cell: Cell<TimerEvent>)
      reads t
    {
      (t.timestamp == 0 <==> cell.zero) && t.next == Pointer(cell.next)
    }

    ghost predicate Known(v: View<TimerEvent>, obj: Option<TimerEvent>)
      reads this
    {
      obj.Some? ==> obj.value in timers && (obj.value in nodes || obj.value in v.idle)
    }

    // The view is right about the idle objects it knows, whose Next pointers lead to linked or
    // known objects, and about the head.
    ghost predicate Mirrors(v: View<TimerEvent>)
      reads this, timers, listHead
    {
      && (forall t :: t in v.idle ==> t in timers)
      && (forall t :: t in v.idle && t !in nodes ==> Shows(t, v.idle[t]) && Known(v, v.idle[t].next))
      && (listHead != null ==> (listHead.timestamp == 0 <==> v.headZero))
    }

    // What the walk reads of a linked object.
    lemma LinkedShows(v: View<TimerEvent>, t: TimerEvent)
      requires Valid() && t in nodes && (listHead.timestamp == 0 <==> v.headZero)
      ensures IndexOf(spec.queue, t) == 0 <==> t == listHead
      ensures Shows(t, CellOf(spec, v, t))
      ensures CellOf(spec, v, t).next.Some? ==> CellOf(spec, v, t).next.value in nodes
    {
      var i :| 0 <= i < |nodes| && nodes[i] == t;
      IndexOfNode(spec.queue, ticks, nodes, gaps, i);
      Objects(spec.queue, ticks, nodes, gaps);
      NoWrap(spec.queue, ticks, nodes, gaps, i);
      assert nodes[i].next == At(nodes, i + 1);
    }

    // What the walk reads of any object that it can come to.
    lemma CellShows(v: View<TimerEvent>, t: TimerEvent)
      requires Valid() && Mirrors(v) && Known(v, Some(t))
      ensures Shows(t, CellOf(spec, v, t)) && Known(v, CellOf(spec, v, t).next)
    {
      hide Encodes, Registered, Chain, Successor;
      Pends(t);
      LinkedKnown();
      if t in nodes {
        LinkedShows(v, t);
      }
    }

    // The head after a call.
    method ExecuteHead(c: Command<TimerEvent>, ghost v: View<TimerEvent>)
      requires Valid() && serving && Mirrors(v) && c.obj in timers
      modifies `listHead, `context, `timeout, `hwStarts, `nodes, `gaps, `spec, timers
      ensures Valid() && spec == old(spec).Obeyed(c)
      ensures Effect(c, old(spec), old(listHead), old(HeadTime()))
      ensures Spared(c)
      ensures listHead != null ==> (listHead.timestamp == 0 <==> AfterCall(old(spec), v, c).headZero)
    {
      hide Valid, Shows, Known, Successor, Slot;
      HeadFirst(c.obj);
      LinkedKnown();
      ServingReads();
      Execute(c);
    }

    // Any call of a callback keeps the view right; at is the object whose callback runs.
    method ExecuteInWalk(c: Command<TimerEvent>, ghost v: View<TimerEvent>, ghost at: TimerEvent)
      requires Valid() && serving && Mirrors(v) && c.obj in timers && Known(v, Some(at))
      modifies `listHead, `context, `timeout, `hwStarts, `nodes, `gaps, `spec, timers
      ensures Valid() && spec == old(spec).Obeyed(c)
      ensures Mirrors(AfterCall(old(spec), v, c)) && Known(AfterCall(old(spec), v, c), Some(at))
    {
      hide Valid, AfterCall, CellOf, ZeroStart, HeadAfter, IndexOf, Slot;
      ghost var s := spec;
      Pends(c.obj);
      LinkedKnown();
      IdleAfter(spec, v, c);
      if c.obj in nodes || c.obj in v.idle {
        CellShows(v, c.obj);
      }
      ExecuteHead(c, v);
      ghost var w := AfterCall(s, v, c);
      forall t | t in w.idle && t !in nodes
        ensures t in timers && Shows(t, w.idle[t]) && Known(w, w.idle[t].next)
      {
        if t == c.obj {
          assert w.idle[t].next == CellOf(s, v, t).next;
        } else {
          assert t !in old(nodes) && w.idle[t] == v.idle[t];
        }
      }
    }

    // The head is the first entry of the queue.
    lemma HeadFirst(t: TimerEvent)
      requires Valid()
      ensures spec.DueOf(t) == None <==> t !in nodes
      ensures spec.DueOf(t) == None <==> IndexOf(spec.queue, t) == |spec.queue|
      ensures t in nodes ==> (IndexOf(spec.queue, t) == 0 <==> t == listHead)
    {
      hide Registered;
      PendingIffLinked(spec, nodes, gaps, t);
      Objects(spec.queue, ticks, nodes, gaps);
    }

    // During an interrupt the reading is exact, whatever happened before.
    lemma ServingReads()
      requires Valid() && serving
      ensures ReadingExact()
    {
    }

    lemma StartScript(s: Schedule<TimerEvent>, v: View<TimerEvent>)
      ensures RunScript(s, []) == s && AfterScript(s, v, []) == v
    {
    }

    // The callback of an object, given by the calls it makes.
    method RunCallback(at: TimerEvent, commands: seq<Command<TimerEvent>>, ghost v: View<TimerEvent>)
      requires Valid() && serving && Mirrors(v) && Known(v, Some(at))
      requires at.hasCallback
      requires forall c :: c in commands ==> c.obj in timers
      modifies `listHead, `context, `timeout, `hwStarts, `nodes, `gaps, `spec, `called, timers
      ensures called == old(called) + [Callback(at, ticks)]
      ensures Valid() && spec == RunScript(old(spec), commands)
      ensures Mirrors(AfterScript(old(spec), v, commands)) && Known(AfterScript(old(spec), v, commands), Some(at))
    {
      hide Valid, Mirrors, Known, RunScript, AfterScript;
      NoteCall(at, v);
      ghost var s := spec;
      StartScript(s, v);
      for j := 0 to |commands|
        invariant Valid() && spec == RunScript(s, commands[..j])
        invariant called == old(called) + [Callback(at, ticks)]
        invariant Mirrors(AfterScript(s, v, commands[..j])) && Known(AfterScript(s, v, commands[..j]), Some(at))
      {
        ScriptStep(s, v, commands, j);
        ExecuteInWalk(commands[j], AfterScript(s, v, commands[..j]), at);
      }
      assert commands[..|commands|] == commands;
    }

    ghost method NoteCall(at: TimerEvent, v: View<TimerEvent>)
      requires Valid() && serving && Mirrors(v) && Known(v, Some(at)) && at.hasCallback
      modifies `called
      ensures Valid() && serving && Mirrors(v) && Known(v, Some(at))
      ensures called == old(called) + [Callback(at, ticks)]
    {
      hide Encodes, Chain, Shows;
      called := called + [Callback(at, ticks)];
    }

    // What the walk does with the object it has come to.
    ghost function Cursor(obj: TimerEvent?): Option<TimerEvent>
      reads obj
    {
      if obj != null && obj.timestamp == 0 then Some(obj) else None
    }

    // The callback of an expired object, unless it is NULL, and the step to the next object: the
    // walk goes on where the view says.
    method ServeExpired(elapsedTimer: TimerEvent, commands: seq<Command<TimerEvent>>, ghost v: View<TimerEvent>)
      returns (next: TimerEvent?)
      requires Valid() && serving && Mirrors(v) && Known(v, Some(elapsedTimer))
      requires forall c :: c in commands ==> c.obj in timers
      requires elapsedTimer !in callable ==> commands == []
      modifies `listHead, `context, `timeout, `hwStarts, `nodes, `gaps, `spec, `called, timers
      ensures called == old(called) + if elapsedTimer in callable then [Callback(elapsedTimer, ticks)] else []
      ensures Valid() && spec == RunScript(old(spec), commands)
      ensures Mirrors(AfterScript(old(spec), v, commands))
      ensures Cursor(next) == Onward(spec, AfterScript(old(spec), v, commands), elapsedTimer)
      ensures Known(AfterScript(old(spec), v, commands), Cursor(next))
    {
      hide Encodes, Registered, Chain, HeadCounts, Mirrors, CellOf, RunScript, AfterScript;
      RegisteredAs(elapsedTimer);
      ghost var w := AfterScript(spec, v, commands);
      StartScript(spec, v);
      if elapsedTimer.hasCallback {
        RunCallback(elapsedTimer, commands, v);
      }
      CellShows(w, elapsedTimer);
      next := elapsedTimer.next;
      if next != null {
        CellShows(w, next);
      }
    }

    // ---------- the interrupt ----------

    // The last step: the hardware counts for the new head.
    method Restart()
      requires Ready()
      modifies `context, `timeout, `hwStarts, `gaps, `spec, `serving, listHead
      ensures Valid() && !serving
      ensures spec == old(spec).Resumed()
      ensures if listHead == null then hwStarts == old(hwStarts)
              else hwStarts == old(hwStarts) + 1 && context == ticks && timeout == listHead.timestamp && listHead.isRunning
    {
      hide Encodes, Registered;
      if listHead != null {
        listHead.isRunning := true;
        TimerSetTimeout(listHead);
      }
      NoteResumed();
    }

    // The head, if there is one, has been given to the hardware, perhaps for the second time.
    ghost predicate Resumable()
      reads this, timers, listHead
    {
      && Synced() && Chain(listHead, nodes, gaps)
      && (if listHead == null then Counted() else hwStarts == |spec.hwStarts| + 1)
      && (listHead != null ==>
            && listHead.isRunning && timeout == listHead.timestamp && context == ticks
            && gaps[0] == if spec.running then Monus(listHead.timestamp, lead) else listHead.timestamp)
    }

    // Proof step of Restart.
    ghost method NoteResumed()
      requires Resumable()
      modifies `gaps, `spec, `serving
      ensures Valid() && !serving
      ensures spec == old(spec).Resumed()
    {
      hide Encodes, Registered;
      ReprogramEncodes(spec, nodes, gaps);
      serving := false;
      gaps := if nodes == [] || spec.running then gaps else HeadLess(gaps, lead);
      spec := spec.Resumed();
    }

    // The first step: take the expired objects off the list.
    method UnlinkExpired()
      requires Paused() && nodes != []
      modifies `listHead, `nodes, `gaps, `spec, `serving
      ensures Ready() && spec == old(spec).Expired() && Mirrors(Begin(old(spec)).view)
      ensures old(spec).DueCount() <= |old(nodes)| && nodes == old(nodes)[old(spec).DueCount()..]
      ensures if old(spec).DueCount() > 0 then Valid() && old(listHead).timestamp == 0 else old(listHead).timestamp > 0
    {
      hide Encodes, Registered;
      ghost var k, s, all, times := 0, spec, nodes, gaps;
      while listHead != null && listHead.timestamp == 0
        invariant 0 <= k <= |nodes| && listHead == At(nodes, k)
        invariant forall i :: 0 <= i < k ==> gaps[i] == 0
        decreases |nodes| - k
        modifies `listHead
      {
        if listHead.next != null {
          listHead := listHead.next;
        } else {
          listHead := null;
        }
        k := k + 1;
      }
      NoteExpired(k);
      ExpiredMirrored(s, all, times);
    }

    // Proof step of UnlinkExpired: listHead has moved behind the k expired objects.
    ghost method NoteExpired(k: nat)
      requires Synced() && Counted() && Chain(At(nodes, 0), nodes, gaps)
      requires nodes != [] && k <= |nodes| && listHead == At(nodes, k) && gaps[0] == nodes[0].timestamp
      requires forall i :: 0 <= i < k ==> gaps[i] == 0
      requires k < |nodes| ==> gaps[k] > 0
      modifies `nodes, `gaps, `spec, `serving
      ensures Ready() && spec == old(spec).Expired() && (k > 0 ==> Valid())
      ensures k == old(spec).DueCount() && nodes == old(nodes)[k..]
    {
      hide Encodes, Registered, Chain, Slot;
      ZeroPrefixDue(spec.queue, ticks, nodes, gaps, k);
      ChainTail(nodes, gaps, k);
      nodes := nodes[k..];
      gaps := gaps[k..];
      spec := spec.Expired();
      serving := true;
      ExpiredReady(k);
    }

    lemma ExpiredReady(k: nat)
      requires Paused() && serving && !spec.running
      requires k > 0 && nodes != [] ==> !nodes[0].isRunning
      ensures Ready() && (k > 0 ==> Valid())
    {
      hide Encodes, Registered;
    }

    // An expired object's Next is its successor, and its Timestamp is zero.
    lemma ExpiredShows(s: Schedule<TimerEvent>, all: seq<TimerEvent>, times: seq<nat>, m: nat)
      requires m < |all| == |s.queue| && Chain(all[0], all, times) && times[0] == all[0].timestamp
      requires Encodes(s.queue, s.now, all, times) && times[m] == 0
      ensures Successor(s.queue, all[m]) == if m + 1 < |all| then Some(all[m + 1]) else None
      ensures Shows(all[m], Cell(true, Successor(s.queue, all[m])))
    {
      hide Encodes;
      Objects(s.queue, s.now, all, times);
      IndexOfNode(s.queue, s.now, all, times, m);
      assert all[m].next == At(all, m + 1);
    }

    // The expired objects are chained up to the first survivor.
    lemma ExpiredMirrored(s: Schedule<TimerEvent>, all: seq<TimerEvent>, times: seq<nat>)
      requires all != [] && Chain(all[0], all, times) && times[0] == all[0].timestamp
      requires Encodes(s.queue, s.now, all, times) && s.DueCount() <= |all| == |s.queue|
      requires forall i :: 0 <= i < |all| ==> all[i] in timers
      requires forall i :: 0 <= i < s.DueCount() ==> times[i] == 0
      requires s.DueCount() < |all| ==> times[s.DueCount()] > 0
      requires nodes == all[s.DueCount()..] && listHead == At(nodes, 0)
      ensures Mirrors(Begin(s).view)
    {
      hide Encodes, Distinct, Successor, Shows, IndexOf, Slot;
      var k, v := s.DueCount(), Begin(s).view;
      Objects(s.queue, s.now, all, times);
      assert DueObjs(s) == all[..k];
      forall t | t in v.idle
        ensures t in timers && Shows(t, v.idle[t]) && Known(v, v.idle[t].next)
      {
        var m :| 0 <= m < k && all[m] == t;
        ExpiredShows(s, all, times, m);
        if m + 1 < k {
          assert all[m + 1] in all[..k];
        } else if m + 1 < |all| {
          assert all[m + 1] == nodes[0];
        }
      }
      assert listHead != null ==> listHead == all[k] && (k > 0 ==> all[k].timestamp == times[k]);
    }

    // The walk has made a round for each of done; s is the schedule before the interrupt.
    ghost predicate Walking(s: Schedule<TimerEvent>, done: seq<seq<Command<TimerEvent>>>)
      reads this, timers, listHead
    {
      var stage := Rounds(s, done);
      && Ready() && (stage.cursor.Some? ==> Valid())
      && spec == stage.schedule && Mirrors(stage.view) && Known(stage.view, stage.cursor)
    }

    // What the environment promises about the callbacks: they use initialised objects, and a NULL
    // callback makes no calls.
    ghost predicate Callable(s: Schedule<TimerEvent>, scripts: seq<seq<Command<TimerEvent>>>)
      requires Complete(s, scripts)
      reads `timers, `callable
    {
      && (forall i, c :: 0 <= i < |scripts| && c in scripts[i] ==> c.obj in timers)
      && (forall i :: 0 <= i < |scripts| && Visits(s, scripts)[i] in timers - callable ==> scripts[i] == [])
    }

    // One round of the walk, whether or not it ever ends: the next timer is the one that the cells
    // of the schedule lead to.
    method WalkRound(elapsedTimer: TimerEvent, commands: seq<Command<TimerEvent>>,
                     ghost s: Schedule<TimerEvent>, ghost done: seq<seq<Command<TimerEvent>>>)
      returns (next: TimerEvent?)
      requires Walking(s, done) && Rounds(s, done).cursor == Some(elapsedTimer)
      requires forall c :: c in commands ==> c.obj in timers
      requires elapsedTimer in timers - callable ==> commands == []
      modifies `listHead, `context, `timeout, `hwStarts, `nodes, `gaps, `spec, `called, timers
      ensures called == old(called) + if elapsedTimer in callable then [Callback(elapsedTimer, ticks)] else []
      ensures Walking(s, done + [commands]) && Rounds(s, done + [commands]).cursor == Cursor(next)
    {
      hide Valid, Mirrors, Onward, RunScript, AfterScript, Rounds;
      RoundsLast(s, done, commands);
      next := ServeExpired(elapsedTimer, commands, Rounds(s, done).view);
    }

    lemma ServedCallable(s: Schedule<TimerEvent>, scripts: seq<seq<Command<TimerEvent>>>, i: nat)
      requires Complete(s, scripts) && Callable(s, scripts) && i < |scripts|
      ensures forall c :: c in scripts[i] ==> c.obj in timers
      ensures Rounds(s, scripts[..i]).cursor.value in timers - callable ==> scripts[i] == []
    {
      hide Rounds;
      assert Visits(s, scripts)[i] == Rounds(s, scripts[..i]).cursor.value;
    }

    // The walk comes to initialised objects only.
    lemma WalksOnKnown(s: Schedule<TimerEvent>, done: seq<seq<Command<TimerEvent>>>)
      requires Walking(s, done) && Rounds(s, done).cursor.Some?
      ensures Rounds(s, done).cursor.value in timers
    {
      hide Rounds, Valid, Mirrors;
    }

    // Run the callbacks.  The ghost result is the sequence of objects that the walk comes to; the
    // callback of each of them, unless it is NULL, is made once, in this order.
    method Walk(first: TimerEvent, scripts: seq<seq<Command<TimerEvent>>>, ghost s: Schedule<TimerEvent>)
      returns (ghost served: seq<TimerEvent>)
      requires Complete(s, scripts) && Callable(s, scripts)
      requires Walking(s, []) && Begin(s).cursor == Cursor(first)
      modifies `listHead, `context, `timeout, `hwStarts, `nodes, `gaps, `spec, `called, timers
      ensures Ready() && spec == RunScripts(s.Expired(), scripts)
      ensures served == Visits(s, scripts) && (forall t :: t in served ==> t in timers)
      ensures called == old(called) + Stamp(Callers(served, callable), ticks)
    {
      hide Ready, Valid, Mirrors, Known, Round, Begin, Callable, Callers, Stamp;
      assert scripts[..0] == [];
      var elapsedTimer: TimerEvent? := first;
      var i := 0;
      served := [];
      NoCallers(called, callable, ticks);
      while elapsedTimer != null && elapsedTimer.timestamp == 0
        invariant i <= |scripts| && Walking(s, scripts[..i]) && Callable(s, scripts)
        invariant Rounds(s, scripts[..i]).cursor == Cursor(elapsedTimer)
        invariant served == Visits(s, scripts)[..i] && (forall t :: t in served ==> t in timers)
        invariant called == old(called) + Stamp(Callers(served, callable), ticks)
        decreases |scripts| - i
      {
        assert scripts[..|scripts|] == scripts;
        WalksOnKnown(s, scripts[..i]);
        CallersLast(old(called), served, elapsedTimer, callable, ticks);
        served := served + [elapsedTimer];
        ServedCallable(s, scripts, i);
        assert scripts[..i + 1] == scripts[..i] + [scripts[i]];
        elapsedTimer := WalkRound(elapsedTimer, scripts[i], s, scripts[..i]);
        i := i + 1;
      }
      assert i == |scripts| && scripts[..i] == scripts;
      RoundsSchedule(s, scripts);
    }

    lemma ListIsQueue()
      requires Synced()
      ensures Objs(spec.queue) == nodes && spec.DueCount() <= |nodes|
    {
      hide Registered;
      Objects(spec.queue, ticks, nodes, gaps);
    }

    // The head's Timestamp becomes the time it has left.
    method StopCounting()
      requires Valid() && !serving && ReadingExact() && listHead != null
      modifies listHead`timestamp
      ensures Paused()
    {
      hide Encodes, Registered;
      var elapsedTime := TimerGetValue();
      if elapsedTime > listHead.timestamp {
        listHead.timestamp := 0;
      } else {
        listHead.timestamp := listHead.timestamp - elapsedTime;
      }
    }

    // The interrupt, with the callbacks of the whole walk.  Makes the callback of each object that
    // the walk comes to (the ghost result), unless it is NULL, and restarts the hardware for the first
    // survivor.  The walk comes to exactly the expired objects, once each in list order, if and only
    // if each callback leads on.
    method TimerIrqHandler(scripts: seq<seq<Command<TimerEvent>>>) returns (ghost served: seq<TimerEvent>)
      requires Valid() && !serving && ReadingExact()
      requires Complete(spec, scripts) && Callable(spec, scripts)
      modifies `listHead, `context, `timeout, `hwStarts, `nodes, `gaps, `spec, `called, `serving, timers
      ensures Valid() && !serving
      ensures spec == old(spec).Interrupted(scripts)
      ensures served == Visits(old(spec), scripts) && (forall t :: t in served ==> t in timers)
      ensures called == old(called) + Stamp(Callers(served, callable), ticks)
      ensures old(spec).DueCount() <= |old(nodes)|
      ensures served == old(nodes)[..old(spec).DueCount()] <==> OnCourse(old(spec), scripts)
      ensures listHead != null ==> context == ticks && timeout == listHead.timestamp && listHead.isRunning
    {
      hide RunScripts, Encodes, Registered, Synced, HeadCounts, Mirrors, Rounds, OnCourse, Callers, Stamp;
      ghost var s := spec;
      ListIsQueue();
      OnCourseIff(s, scripts);
      assert DueObjs(s) == nodes[..s.DueCount()];
      if listHead == null {
        NoWalk(s, scripts);
        NoCallers(called, callable, ticks);
        return [];
      }
      LinkedKnown();
      StopCounting();
      var elapsedTimer := listHead;
      UnlinkExpired();
      BeginWalk(s);
      served := Walk(elapsedTimer, scripts, s);
      LinkedKnown();
      Restart();
    }

    lemma NoWalk(s: Schedule<TimerEvent>, scripts: seq<seq<Command<TimerEvent>>>)
      requires s.queue == [] && Complete(s, scripts)
      ensures scripts == []
    {
      assert scripts != [] ==> Rounds(s, scripts[..0]).cursor.Some?;
    }

    lemma BeginWalk(s: Schedule<TimerEvent>)
      requires Ready() && spec == s.Expired() && Mirrors(Begin(s).view)
      requires s.DueCount() > 0 ==> Valid() && s.queue[0].obj in timers
      ensures Walking(s, [])
    {
      assert s.DueCount() > 0 ==> s.queue[0].obj == DueObjs(s)[0];
    }

    // ---------- callbacks that lead astray ----------

    // A callback that restarts its own timer while other expired timers are still to be served:
    // what the walk finds next is no timer or one with a positive Timestamp, so it ends here.  The
    // timers that were waiting for their callbacks are still idle.
    method SkipHazard(obj: TimerEvent) returns (next: TimerEvent?)
      requires Valid() && serving && Sound(spec) && obj in timers && obj !in nodes
      modifies `listHead, `context, `timeout, `hwStarts, `nodes, `gaps, `spec, nodes, obj
      ensures Valid() && spec == old(spec).Started(obj)
      ensures next == null || next.timestamp > 0
      ensures forall t :: t in timers && t !in old(nodes) && t != obj ==> t !in nodes
    {
      hide Encodes, Registered, Chain, Sound;
      Pends(obj);
      StartLeavesGap(spec, obj);
      ServingReads();
      TimerStart(obj);
      WalkReadsZeroIff(obj);
      next := obj.next;
    }

    // What the walk reads through a linked object.
    lemma WalkReadsZeroIff(obj: TimerEvent)
      requires Valid() && obj in nodes
      ensures obj.next != null ==> obj.next in nodes
      ensures (obj.next != null && obj.next.timestamp == 0) <==> ZeroBehind(spec, obj)
    {
      var i :| 0 <= i < |nodes| && nodes[i] == obj;
      IndexOfNode(spec.queue, ticks, nodes, gaps, i);
      Objects(spec.queue, ticks, nodes, gaps);
      assert nodes[i].next == At(nodes, i + 1);
      if i + 1 < |nodes| {
        NoWrap(spec.queue, ticks, nodes, gaps, i + 1);
        assert nodes[i + 1].timestamp == gaps[i + 1];
      }
    }

    // A callback that restarts its own timer and then starts b: the walk finds a live timer with a
    // zero Timestamp, and runs its callback at once, if and only if b falls due with the restarted
    // timer.
    method RestartHazard(obj: TimerEvent, b: TimerEvent) returns (next: TimerEvent?)
      requires Valid() && serving && Sound(spec) && obj in timers && b in timers
      requires obj !in nodes && b !in nodes && obj != b
      modifies `listHead, `context, `timeout, `hwStarts, `nodes, `gaps, `spec, nodes, obj, b
      ensures Valid() && spec == old(spec).Started(obj).Started(b)
      ensures next != null ==> next in nodes
      ensures (next != null && next.timestamp == 0) <==>
              old(spec).Started(obj).DueOf(obj) == Some(old(spec).now + old(spec).Reload(b))
    {
      hide Encodes, Registered, Chain, Sound, ZeroBehind, ZeroStart, HeadCounts, IndexOf, Slot;
      Pends(obj);
      StartLeavesGap(spec, obj);
      StartSound(spec, obj);
      ServingReads();
      TimerStart(obj);
      next := StartBeside(obj, b);
    }

    // The second start of RestartHazard.
    method StartBeside(obj: TimerEvent, b: TimerEvent) returns (next: TimerEvent?)
      requires Valid() && serving && Sound(spec) && obj in nodes && b in timers && b !in nodes
      requires !ZeroBehind(spec, obj)
      modifies `listHead, `context, `timeout, `hwStarts, `nodes, `gaps, `spec, nodes, b
      ensures Valid() && spec == old(spec).Started(b)
      ensures next != null ==> next in nodes
      ensures (next != null && next.timestamp == 0) <==>
              old(spec).DueOf(obj) == Some(old(spec).now + old(spec).Reload(b))
    {
      hide Encodes, Registered, Chain, Sound, ZeroBehind, ZeroStart, HeadCounts, IndexOf, Slot;
      Pends(obj);
      Pends(b);
      HazardStep(spec, obj, b);
      ServingReads();
      TimerStart(b);
      Pends(obj);
      WalkReadsZeroIff(obj);
      next := obj.next;
    }

    // ---------- one event of the program or the board ----------

    ghost predicate Admissible(e: Event<TimerEvent>)
      requires Valid()
      reads this, timers, listHead, if e.Call? then {e.command.obj} else {}
    {
      match e
      case Init(obj, _) => obj !in nodes
      case Tick => true
      case Call(c) => c.obj in timers && (Reads(c) ==> ReadingExact())
      case Interrupt(scripts) => ReadingExact() && Complete(spec, scripts) && Callable(spec, scripts)
    }

    // The refinement in one statement: whatever happens, the schedule takes the step Next, so
    // that the list stands for a run of the schedule after every sequence of events, and the
    // callbacks made are those of the timers that the schedule says.
    method Perform(e: Event<TimerEvent>)
      requires Valid() && !serving && Admissible(e)
      modifies this, timers, (if e.Init? then {e.obj} else {})
      ensures Valid() && !serving
      ensures spec == old(spec).Next(e)
      ensures called == old(called) + Stamp(Callers(Served(old(spec), e), old(callable)), old(spec).now)
      ensures forall t :: t in Served(old(spec), e) ==> t in old(timers)
      ensures timers == old(timers) + (if e.Init? then {e.obj} else {})
      ensures !e.Init? ==> callable == old(callable)
      ensures e.Init? ==> callable == if e.callback then old(callable) + {e.obj} else old(callable) - {e.obj}
      ensures forall s: Schedule<TimerEvent>, events ::
                old(spec) == Run(s, events) ==> spec == Run(s, events + [e])
    {
      hide Encodes, Chain, Complete, Callable, Run, Callers, Stamp;
      NoCallers(called, callable, ticks);
      match e {
        case Init(obj, callback) =>
          Pends(obj);
          Initialise(obj, callback);
        case Tick => TimerIncrementTickCounter();
        case Call(c) => Execute(c);
        case Interrupt(scripts) => var _ := TimerIrqHandler(scripts);
      }
      forall s: Schedule<TimerEvent>, events | old(spec) == Run(s, events)
        ensures spec == Run(s, events + [e])
      {
        RunLast(s, events, e);
      }
    }
  }
}
