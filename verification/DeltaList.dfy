/**
 * The delta encoding: gaps[0] is the time left for the head, gaps[k] the time of entry k after
 * its predecessor.  Encodes relates it to a queue of absolute deadlines by one equation per
 * entry, and each lemma below shows that an edit of at most two gaps carries out one edit of
 * the queue and leaves every other deadline alone.
 */
module DeltaList {
  import opened Common
  import opened TimerSchedule

  // Entry i of the queue is object i of the list, its gap counts from its predecessor (the
  // head's from now), and it is no further away than its own ReloadValue.
  predicate EncodesAt<T(==)>(q: seq<Pending<T>>, now: nat, objs: seq<T>, gaps: seq<nat>, i: nat)
    requires |q| == |objs| == |gaps| && i < |q|
  {
    && q[i].obj == objs[i]
    && q[i].due == (if i == 0 then now else q[i - 1].due) + gaps[i]
    && q[i].due <= now + q[i].reload
  }

  predicate Encodes<T(==)>(q: seq<Pending<T>>, now: nat, objs: seq<T>, gaps: seq<nat>) {
    && |q| == |objs| == |gaps|
    && (forall i :: 0 <= i < |q| ==> EncodesAt(q, now, objs, gaps, i))
  }

  // A new gap of g in front of position p; the entry that was there keeps its deadline.
  function Split(gaps: seq<nat>, p: nat, g: nat): seq<nat>
    requires p <= |gaps|
    requires p < |gaps| ==> g <= gaps[p]
  {
    InsertAt(if p < |gaps| then gaps[p := gaps[p] - g] else gaps, p, g)
  }

  // Position i goes; its gap is handed to the successor, if there is one.
  function Merge(gaps: seq<nat>, i: nat): seq<nat>
    requires i < |gaps|
  {
    RemoveAt(if i + 1 < |gaps| then gaps[i + 1 := gaps[i + 1] + gaps[i]] else gaps, i)
  }

  lemma {:induction false} Increasing<T>(q: seq<Pending<T>>, now: nat, objs: seq<T>, gaps: seq<nat>, i: nat, j: nat)
    requires Encodes(q, now, objs, gaps) && i <= j < |q|
    ensures now + gaps[0] <= q[i].due <= q[j].due
    decreases i + j
  {
    assert EncodesAt(q, now, objs, gaps, j);
    if i < j {
      Increasing(q, now, objs, gaps, i, j - 1);
    } else if 0 < i {
      Increasing(q, now, objs, gaps, i - 1, i - 1);
    }
  }

  lemma Sorted<T>(q: seq<Pending<T>>, now: nat, objs: seq<T>, gaps: seq<nat>)
    requires Encodes(q, now, objs, gaps)
    ensures forall i, j :: 0 <= i <= j < |q| ==> now <= q[i].due <= q[j].due
  {
    forall i, j | 0 <= i <= j < |q|
      ensures now <= q[i].due <= q[j].due
    {
      Increasing(q, now, objs, gaps, i, j);
    }
  }

  lemma Objects<T>(q: seq<Pending<T>>, now: nat, objs: seq<T>, gaps: seq<nat>)
    requires Encodes(q, now, objs, gaps)
    ensures forall i :: 0 <= i < |q| ==> q[i].obj == objs[i]
  {
    forall i | 0 <= i < |q|
      ensures q[i].obj == objs[i]
    {
      assert EncodesAt(q, now, objs, gaps, i);
    }
  }

  // No 32-bit wrap: a deadline is never further away than a ReloadValue, so neither a gap, nor
  // the sum the insertion walk carries, nor the sum of two neighbouring gaps leaves the range.
  lemma NoWrap<T>(q: seq<Pending<T>>, now: nat, objs: seq<T>, gaps: seq<nat>, i: nat)
    requires Encodes(q, now, objs, gaps) && i < |q|
    ensures q[i].due == (if i == 0 then now else q[i - 1].due) + gaps[i]
    ensures now <= q[i].due < now + WORD_LIMIT
    ensures i + 1 < |q| ==> gaps[i] + gaps[i + 1] <= q[i + 1].due - now < WORD_LIMIT
  {
    Increasing(q, now, objs, gaps, i, i);
    assert EncodesAt(q, now, objs, gaps, i);
    if i > 0 {
      Increasing(q, now, objs, gaps, i - 1, i);
    }
    if i + 1 < |q| {
      assert EncodesAt(q, now, objs, gaps, i + 1);
    }
  }

  lemma SplitSlot<T>(q: seq<Pending<T>>, now: nat, objs: seq<T>, gaps: seq<nat>, p: nat, due: nat)
    requires Encodes(q, now, objs, gaps) && p <= |q|
    requires p > 0 ==> q[p - 1].due <= due
    requires p < |q| ==> due < q[p].due
    ensures Slot(q, due) == p
  {
    Sorted(q, now, objs, gaps);
    SlotUnique(q, due, p);
  }

  lemma SplitEncodes<T>(q: seq<Pending<T>>, now: nat, objs: seq<T>, gaps: seq<nat>, p: nat, e: Pending<T>, g: nat)
    requires Encodes(q, now, objs, gaps) && p <= |q|
    requires now <= e.due <= now + e.reload
    requires e.due == (if p == 0 then now else q[p - 1].due) + g
    requires p < |q| ==> e.due < q[p].due
    ensures p < |q| ==> g < gaps[p]
    ensures Encodes(InsertAt(q, p, e), now, InsertAt(objs, p, e.obj), Split(gaps, p, g))
  {
    if p < |q| {
      assert EncodesAt(q, now, objs, gaps, p);
    }
    var q', objs', gaps' := InsertAt(q, p, e), InsertAt(objs, p, e.obj), Split(gaps, p, g);
    forall i | 0 <= i < |q'|
      ensures EncodesAt(q', now, objs', gaps', i)
    {
      if i != p {
        assert EncodesAt(q, now, objs, gaps, if i < p then i else i - 1);
      }
    }
  }

  lemma MergeEncodes<T>(q: seq<Pending<T>>, now: nat, objs: seq<T>, gaps: seq<nat>, i: nat)
    requires Encodes(q, now, objs, gaps) && i < |q|
    ensures Encodes(RemoveAt(q, i), now, RemoveAt(objs, i), Merge(gaps, i))
  {
    assert EncodesAt(q, now, objs, gaps, i);
    var q', objs', gaps' := RemoveAt(q, i), RemoveAt(objs, i), Merge(gaps, i);
    forall k | 0 <= k < |q'|
      ensures EncodesAt(q', now, objs', gaps', k)
    {
      assert EncodesAt(q, now, objs, gaps, if k < i then k else k + 1);
    }
  }

  // The head's gap after counting for a while; the others do not change.
  function HeadLess(gaps: seq<nat>, ticks: nat): seq<nat> {
    if gaps == [] then [] else gaps[0 := Monus(gaps[0], ticks)]
  }

  lemma TickEncodes<T>(s: Schedule<T>, objs: seq<T>, gaps: seq<nat>)
    requires Encodes(s.queue, s.now, objs, gaps)
    ensures Encodes(s.Ticked().queue, s.now + 1, objs, HeadLess(gaps, 1))
  {
    var q', now', gaps' := s.Ticked().queue, s.now + 1, HeadLess(gaps, 1);
    forall i | 0 <= i < |q'|
      ensures EncodesAt(q', now', objs, gaps', i)
    {
      assert EncodesAt(s.queue, s.now, objs, gaps, i);
      assert EncodesAt(s.queue, s.now, objs, gaps, 0);
      Increasing(s.queue, s.now, objs, gaps, i, i);
    }
  }

  lemma ReprogramEncodes<T>(s: Schedule<T>, objs: seq<T>, gaps: seq<nat>)
    requires Encodes(s.queue, s.now, objs, gaps)
    ensures Encodes(s.Reprogrammed().queue, s.now, objs, HeadLess(gaps, s.lead))
  {
    var q' := s.Reprogrammed().queue;
    forall i | 0 <= i < |q'|
      ensures EncodesAt(q', s.now, objs, HeadLess(gaps, s.lead), i)
    {
      assert EncodesAt(s.queue, s.now, objs, gaps, i);
      assert EncodesAt(s.queue, s.now, objs, gaps, 0);
      Increasing(s.queue, s.now, objs, gaps, i, i);
      if i > 0 {
        Increasing(s.queue, s.now, objs, gaps, i - 1, i - 1);
      }
    }
  }

  // The maximal prefix of zero gaps is what is due, and dropping it needs no edit at all.
  lemma ZeroPrefixDue<T>(q: seq<Pending<T>>, now: nat, objs: seq<T>, gaps: seq<nat>, k: nat)
    requires Encodes(q, now, objs, gaps) && k <= |q|
    requires forall i :: 0 <= i < k ==> gaps[i] == 0
    requires k < |q| ==> gaps[k] > 0
    ensures Slot(q, now) == k
    ensures Encodes(q[k..], now, objs[k..], gaps[k..])
  {
    if k > 0 {
      AllDue(q, now, objs, gaps, k - 1);
    }
    if k < |q| {
      assert EncodesAt(q, now, objs, gaps, k);
      Increasing(q, now, objs, gaps, k, k);
    }
    SplitSlot(q, now, objs, gaps, k, now);
    forall i | 0 <= i < |q| - k
      ensures EncodesAt(q[k..], now, objs[k..], gaps[k..], i)
    {
      assert EncodesAt(q, now, objs, gaps, k + i);
    }
  }

  lemma {:induction false} AllDue<T>(q: seq<Pending<T>>, now: nat, objs: seq<T>, gaps: seq<nat>, k: nat)
    requires Encodes(q, now, objs, gaps) && k < |q|
    requires forall i :: 0 <= i <= k ==> gaps[i] == 0
    ensures q[k].due == now
  {
    assert EncodesAt(q, now, objs, gaps, k);
    if k > 0 {
      AllDue(q, now, objs, gaps, k - 1);
    }
  }
}
