/**
 * The cells of the timer list: caller-owned objects linked by Next pointers, each storing the time
 * after its predecessor.
 */
module TimerCells {
  import opened Common
  import opened TimerSchedule
  import opened DeltaList

  class TimerEvent {
    var timestamp: Word
    var reloadValue: Word
    var isRunning: bool
    var hasCallback: bool  // false is a NULL callback
    var next: TimerEvent?

    method TimerInit(callback: bool)
      modifies this
      ensures timestamp == 0 && reloadValue == 0 && !isRunning && next == null
      ensures hasCallback == callback
    {
      timestamp := 0;
      reloadValue := 0;
      isRunning := false;
      hasCallback := callback;
      next := null;
    }
  }

  // What the server computes as the head's remaining time from the 32-bit reading of a 64-bit
  // elapsed time.
  function ReadRemaining(timestamp: Word, elapsed: nat): Word {
    var reading := elapsed % WORD_LIMIT;
    if reading > timestamp then 0 else timestamp - reading
  }

  // The narrowing is harmless exactly while the elapsed time fits, or its residue still covers
  // the timestamp.
  lemma ReadingExactIff(timestamp: Word, elapsed: nat)
    ensures ReadRemaining(timestamp, elapsed) == Monus(timestamp, elapsed) <==>
            elapsed < WORD_LIMIT || elapsed % WORD_LIMIT >= timestamp
  {
    if elapsed >= WORD_LIMIT {
      assert timestamp < elapsed;
    } else {
      assert elapsed % WORD_LIMIT == elapsed;
    }
  }

  // The object at position i of a list, NULL behind its end.
  function At(objs: seq<TimerEvent>, i: nat): TimerEvent? {
    if i < |objs| then objs[i] else null
  }

  function Pointer(obj: Option<TimerEvent>): TimerEvent? {
    match obj
    case None => null
    case Some(t) => t
  }

  ghost predicate Distinct<A>(objs: seq<A>) {
    forall i, j :: 0 <= i < j < |objs| ==> objs[i] != objs[j]
  }

  // A finite, acyclic, duplicate-free list in which only the head may be running, and whose
  // nodes behind the head store their gaps.
  ghost predicate Chain(head: TimerEvent?, objs: seq<TimerEvent>, gaps: seq<nat>)
    reads objs
  {
    && |gaps| == |objs|
    && head == At(objs, 0)
    && Distinct(objs)
    && (forall i {:trigger objs[i].next} :: 0 <= i < |objs| ==> objs[i].next == At(objs, i + 1))
    && (forall i {:trigger objs[i].isRunning} {:trigger objs[i].timestamp} :: 1 <= i < |objs| ==>
          !objs[i].isRunning && objs[i].timestamp == gaps[i])
  }

  lemma ChainNewHead(obj: TimerEvent, objs: seq<TimerEvent>, gaps: seq<nat>, g: nat)
    requires Chain(At(objs, 0), objs, gaps) && obj !in objs
    requires objs != [] ==> !objs[0].isRunning && objs[0].timestamp == gaps[0]
    requires obj.next == At(objs, 0)
    ensures Chain(obj, InsertAt(objs, 0, obj), InsertAt(gaps, 0, g))
  {
  }

  // The cells after obj has been written between positions p - 1 and p.
  ghost predicate Bridged(objs: seq<TimerEvent>, gaps: seq<nat>, p: nat, obj: TimerEvent)
    requires 1 <= p <= |objs| == |gaps|
    reads obj, objs
  {
    && obj !in objs && !obj.isRunning
    && obj.next == At(objs, p) && objs[p - 1].next == obj
    && Distinct(objs)
    && (forall i {:trigger objs[i].next} :: 0 <= i < |objs| && i != p - 1 ==> objs[i].next == At(objs, i + 1))
    && (forall i {:trigger objs[i].isRunning} :: 1 <= i < |objs| ==> !objs[i].isRunning)
    && (forall i {:trigger objs[i].timestamp} :: 1 <= i < |objs| && i != p ==> objs[i].timestamp == gaps[i])
    && (p < |objs| ==> objs[p].timestamp == gaps[p] - obj.timestamp)
  }

  lemma ChainBridge(obj: TimerEvent, objs: seq<TimerEvent>, gaps: seq<nat>, p: nat)
    requires 1 <= p <= |objs| == |gaps| && Bridged(objs, gaps, p, obj)
    ensures Chain(objs[0], InsertAt(objs, p, obj), Split(gaps, p, obj.timestamp))
  {
  }

  // The cells after position i has been bypassed; its successor has taken over its gap.
  ghost predicate Bypassed(objs: seq<TimerEvent>, gaps: seq<nat>, i: nat)
    requires i < |objs| == |gaps|
    reads objs
  {
    && Distinct(objs)
    && (forall k {:trigger objs[k].next} :: 0 <= k < |objs| && k != i && k + 1 != i ==> objs[k].next == At(objs, k + 1))
    && (i > 0 ==> objs[i - 1].next == At(objs, i + 1))
    && (forall k {:trigger objs[k].isRunning} :: 1 <= k < |objs| && k != i && (i == 0 ==> k != 1) ==> !objs[k].isRunning)
    && (forall k {:trigger objs[k].timestamp} :: 1 <= k < |objs| && k != i && k != i + 1 ==> objs[k].timestamp == gaps[k])
    && (i + 1 < |objs| ==> objs[i + 1].timestamp == gaps[i] + gaps[i + 1])
  }

  lemma ChainBypass(objs: seq<TimerEvent>, gaps: seq<nat>, i: nat)
    requires i < |objs| == |gaps| && Bypassed(objs, gaps, i)
    ensures Chain(if i == 0 then At(objs, 1) else objs[0], RemoveAt(objs, i), Merge(gaps, i))
  {
  }

  lemma ChainTail(objs: seq<TimerEvent>, gaps: seq<nat>, k: nat)
    requires k <= |objs| && Chain(At(objs, 0), objs, gaps)
    ensures Chain(At(objs, k), objs[k..], gaps[k..])
    ensures forall m :: 0 <= m < k ==> objs[m] !in objs[k..]
    ensures 0 < k < |objs| ==> !objs[k].isRunning && objs[k].timestamp == gaps[k]
  {
  }

  // ---------- the list and the queue ----------

  lemma IndexOfNode<T>(q: seq<Pending<T>>, now: nat, objs: seq<T>, gaps: seq<nat>, i: nat)
    requires Encodes(q, now, objs, gaps) && i < |objs|
    requires Distinct(objs)
    ensures IndexOf(q, objs[i]) == i
  {
    Objects(q, now, objs, gaps);
  }

  // A timer is pending exactly if it is linked.
  lemma PendingIffLinked<T>(s: Schedule<T>, objs: seq<T>, gaps: seq<nat>, t: T)
    requires Encodes(s.queue, s.now, objs, gaps)
    ensures s.DueOf(t) != None <==> t in objs
    ensures t !in objs ==> IndexOf(s.queue, t) == |s.queue|
  {
    Objects(s.queue, s.now, objs, gaps);
    if t in objs {
      var k :| 0 <= k < |objs| && objs[k] == t;
      assert s.queue[k].obj == t;
    }
  }

  // Becoming the head and programming the hardware for it.
  lemma NewHeadEncodes<T>(s: Schedule<T>, objs: seq<T>, gaps: seq<nat>, t: T)
    requires Encodes(s.queue, s.now, objs, gaps)
    requires gaps != [] ==> s.Reload(t) < gaps[0]
    requires t !in objs
    ensures s.PlaceOf(t) == 0 && s.Started(t) == s.Inserted(t).(running := true).Reprogrammed()
    ensures Encodes(s.Started(t).queue, s.now, InsertAt(objs, 0, t),
                    Split(gaps, 0, s.Reload(t))[0 := Monus(s.Reload(t), s.lead)])
  {
    PendingIffLinked(s, objs, gaps, t);
    if objs != [] {
      NoWrap(s.queue, s.now, objs, gaps, 0);
    }
    SplitSlot(s.queue, s.now, objs, gaps, 0, s.now + s.Reload(t));
    SplitEncodes(s.queue, s.now, objs, gaps, 0, s.NewEntry(t), s.Reload(t));
    ReprogramEncodes(s.Inserted(t).(running := true), InsertAt(objs, 0, t), Split(gaps, 0, s.Reload(t)));
  }

  lemma BehindEncodes<T>(s: Schedule<T>, objs: seq<T>, gaps: seq<nat>, t: T, p: nat, g: nat)
    requires Encodes(s.queue, s.now, objs, gaps)
    requires 1 <= p <= |objs| && t !in objs
    requires s.Reload(t) == s.queue[p - 1].due - s.now + g
    requires p < |objs| ==> s.now + s.Reload(t) < s.queue[p].due
    ensures p < |objs| ==> g < gaps[p]
    ensures s.PlaceOf(t) == p && s.Started(t) == s.Inserted(t)
    ensures Encodes(s.Started(t).queue, s.now, InsertAt(objs, p, t), Split(gaps, p, g))
  {
    PendingIffLinked(s, objs, gaps, t);
    SplitSlot(s.queue, s.now, objs, gaps, p, s.now + s.Reload(t));
    SplitEncodes(s.queue, s.now, objs, gaps, p, s.NewEntry(t), g);
  }

  lemma StopEncodes<T>(s: Schedule<T>, objs: seq<T>, gaps: seq<nat>, i: nat)
    requires Encodes(s.queue, s.now, objs, gaps) && i < |objs|
    requires Distinct(objs)
    ensures s.Stopped(objs[i]) == if i == 0 && s.running then s.Removed(i).Reprogrammed() else s.Removed(i)
    ensures Encodes(s.Stopped(objs[i]).queue, s.now, RemoveAt(objs, i),
                    if i == 0 && s.running then HeadLess(Merge(gaps, i), s.lead) else Merge(gaps, i))
  {
    IndexOfNode(s.queue, s.now, objs, gaps, i);
    MergeEncodes(s.queue, s.now, objs, gaps, i);
    ReprogramEncodes(s.Removed(i), RemoveAt(objs, i), Merge(gaps, i));
  }

  lemma InsertAtMembers<A>(s: seq<A>, e: A)
    ensures forall p, i :: 0 <= p <= |s| && 0 <= i <= |s| ==> InsertAt(s, p, e)[i] in s || InsertAt(s, p, e)[i] == e
  {
  }

  lemma InsertAtHas<A>(s: seq<A>, e: A)
    ensures forall p :: 0 <= p <= |s| ==> e in InsertAt(s, p, e)
    ensures forall p, x :: 0 <= p <= |s| && x in s ==> x in InsertAt(s, p, e)
  {
    forall p | 0 <= p <= |s|
      ensures e in InsertAt(s, p, e)
    {
      assert InsertAt(s, p, e)[p] == e;
    }
    forall p, x | 0 <= p <= |s| && x in s
      ensures x in InsertAt(s, p, e)
    {
      var i :| 0 <= i < |s| && s[i] == x;
      assert InsertAt(s, p, e)[if i < p then i else i + 1] == x;
    }
  }

  lemma RemoveAtMembers<A>(s: seq<A>, i: nat)
    requires i < |s| && Distinct(s)
    ensures s[i] !in RemoveAt(s, i)
    ensures forall k :: 0 <= k < |s| - 1 ==> RemoveAt(s, i)[k] in s
    ensures forall x :: x in s && x != s[i] ==> x in RemoveAt(s, i)
  {
    forall x | x in s && x != s[i]
      ensures x in RemoveAt(s, i)
    {
      var k :| 0 <= k < |s| && s[k] == x;
      assert RemoveAt(s, i)[if k < i then k else k - 1] == x;
    }
  }
}
