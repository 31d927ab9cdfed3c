/** The merge at the end of tools/gen_pcap.py: conversations started at different times become one
    capture file in order of time. */
module TrafficMerge {
  import opened Bytes
  import opened CaptureFormat
  import opened Collections

  const EPOCH: nat := 1_700_000_000

  /** What a conversation yields: how long after its last frame, and which frame. */
  datatype Step = Step(gap: nat, frame: seq<byte>)

  /** A conversation and the time it starts, in microseconds. */
  datatype Conversation = Conversation(start: nat, steps: seq<Step>)

  datatype Timed = Timed(time: nat, frame: seq<byte>)

  /** The next frame of a conversation and the steps behind it. */
  datatype Pending = Pending(time: nat, frame: seq<byte>, rest: seq<Step>)

  /** Pending frames by the sequence number of their conversation. As no two entries share a number,
      comparing (time, number) pairs never reaches the conversations themselves. */
  type Heap = map<nat, Pending>

  datatype Emitted = Emitted(time: nat, number: nat, frame: seq<byte>)

  /** The frames of a conversation with their times. */
  function Schedule(at: nat, steps: seq<Step>): seq<Timed>
    decreases |steps|
  {
    if steps == [] then []
    else
      var t := at + steps[0].gap;
      [Timed(t, steps[0].frame)] + Schedule(t, steps[1..])
  }

  function Ahead(p: Pending): seq<Timed> {
    [Timed(p.time, p.frame)] + Schedule(p.time, p.rest)
  }

  lemma {:induction false} ScheduleNotBefore(at: nat, steps: seq<Step>)
    ensures forall e :: e in Schedule(at, steps) ==> at <= e.time
    decreases |steps|
  {
    if steps != [] {
      ScheduleNotBefore(at + steps[0].gap, steps[1..]);
    }
  }

  function Left(heap: Heap, k: nat): seq<Timed> {
    if k in heap then Ahead(heap[k]) else []
  }

  /** What of the output came from conversation `k`. */
  function Of(out: seq<Emitted>, k: nat): seq<Timed> {
    if out == [] then []
    else
      var e := out[|out| - 1];
      Of(out[..|out| - 1], k) + if e.number == k then [Timed(e.time, e.frame)] else []
  }

  lemma OfMore(out: seq<Emitted>, e: Emitted, k: nat)
    ensures Of(out + [e], k) == Of(out, k) + if e.number == k then [Timed(e.time, e.frame)] else []
  {
    assert (out + [e])[..|out|] == out;
  }

  predicate NotAfter(time: nat, number: nat, time': nat, number': nat) {
    time < time' || (time == time' && number <= number')
  }

  /** In order of time, and of conversation number where times are equal. */
  ghost predicate InOrder(out: seq<Emitted>) {
    forall i, j :: 0 <= i < j < |out| ==> NotAfter(out[i].time, out[i].number, out[j].time, out[j].number)
  }

  /** Nothing that is still pending is due before something that has been written. */
  ghost predicate NothingOverdue(out: seq<Emitted>, heap: Heap) {
    forall e, k :: e in out && k in heap ==> NotAfter(e.time, e.number, heap[k].time, k)
  }

  ghost predicate KnownNumbers(heap: Heap, out: seq<Emitted>, n: nat) {
    (forall k :: k in heap ==> k < n) && (forall e :: e in out ==> e.number < n)
  }

  /** Every conversation has been written up to its pending frame, without loss or change. */
  ghost predicate Conserves(heap: Heap, out: seq<Emitted>, schedules: seq<seq<Timed>>) {
    forall k :: 0 <= k < |schedules| ==> schedules[k] == Of(out, k) + Left(heap, k)
  }

  ghost predicate Merged(heap: Heap, out: seq<Emitted>, schedules: seq<seq<Timed>>) {
    KnownNumbers(heap, out, |schedules|) && Conserves(heap, out, schedules) && InOrder(out) && NothingOverdue(out, heap)
  }

  // ----- Starting conversations -----

  /** The schedules of the conversations that have any frames. */
  function Schedules(convs: seq<Conversation>, base: nat): seq<seq<Timed>> {
    if convs == [] then []
    else
      var c := convs[|convs| - 1];
      Schedules(convs[..|convs| - 1], base) + if c.steps == [] then [] else [Schedule(base + c.start, c.steps)]
  }

  ghost predicate DueBy(out: seq<Emitted>, time: nat) {
    forall e :: e in out ==> e.time <= time
  }

  lemma {:induction false} OfUnknown(out: seq<Emitted>, k: nat)
    requires forall e :: e in out ==> e.number < k
    ensures Of(out, k) == []
  {
    if out != [] {
      OfUnknown(out[..|out| - 1], k);
    }
  }

  function First(at: nat, steps: seq<Step>): Pending
    requires steps != []
  {
    Pending(at + steps[0].gap, steps[0].frame, steps[1..])
  }

  lemma ScheduleIsAhead(at: nat, steps: seq<Step>)
    ensures Schedule(at, steps) == if steps == [] then [] else Ahead(First(at, steps))
  {
  }

  lemma StartMerges(heap: Heap, p: Pending, out: seq<Emitted>, schedules: seq<seq<Timed>>)
    requires Merged(heap, out, schedules) && DueBy(out, p.time)
    ensures Merged(heap[|schedules| := p], out, schedules + [Ahead(p)])
  {
    hide Ahead, Of;
    OfUnknown(out, |schedules|);
    var heap', n := heap[|schedules| := p], |schedules|;
    forall k | 0 <= k < n + 1
      ensures (schedules + [Ahead(p)])[k] == Of(out, k) + Left(heap', k)
    {
      assert k < n ==> Left(heap', k) == Left(heap, k);
    }
  }

  method Start(heap: Heap, n: nat, at: nat, steps: seq<Step>, ghost out: seq<Emitted>, ghost schedules: seq<seq<Timed>>)
    returns (heap': Heap, n': nat, ghost schedules': seq<seq<Timed>>)
    requires n == |schedules| && Merged(heap, out, schedules) && DueBy(out, at)
    ensures n' == |schedules'| && Merged(heap', out, schedules')
    ensures schedules' == schedules + if steps == [] then [] else [Schedule(at, steps)]
    ensures heap' == if steps == [] then heap else heap[n := First(at, steps)]
  {
    hide Merged, Ahead, Schedule;
    heap', n', schedules' := heap, n, schedules;
    if steps != [] {
      StartMerges(heap, First(at, steps), out, schedules);
      ScheduleIsAhead(at, steps);
      heap' := heap[n := First(at, steps)];
      n' := n + 1;
      schedules' := schedules + [Schedule(at, steps)];
    }
  }

  lemma NoSchedules(base: nat)
    ensures Schedules([], base) == []
  {
  }

  lemma SchedulesMore(convs: seq<Conversation>, base: nat, i: nat)
    requires i < |convs|
    ensures Schedules(convs[..i + 1], base) == Schedules(convs[..i], base) +
              if convs[i].steps == [] then [] else [Schedule(base + convs[i].start, convs[i].steps)]
  {
    assert convs[..i + 1][..i] == convs[..i];
  }

  method StartAll(heap: Heap, n: nat, base: nat, convs: seq<Conversation>, ghost out: seq<Emitted>,
                  ghost schedules: seq<seq<Timed>>)
    returns (heap': Heap, n': nat, ghost schedules': seq<seq<Timed>>)
    requires n == |schedules| && Merged(heap, out, schedules) && DueBy(out, base)
    ensures n' == |schedules'| && Merged(heap', out, schedules') && schedules' == schedules + Schedules(convs, base)
    ensures heap' != map[] || (heap == map[] && forall c :: c in convs ==> c.steps == [])
  {
    hide Merged, Schedules, Schedule;
    heap', n', schedules' := heap, n, schedules;
    assert Schedules(convs[..0], base) == [] by { NoSchedules(base); }
    for i := 0 to |convs|
      invariant n' == |schedules'| && Merged(heap', out, schedules')
      invariant schedules' == schedules + Schedules(convs[..i], base)
      invariant heap' != map[] || (heap == map[] && forall c :: c in convs[..i] ==> c.steps == [])
    {
      heap', n', schedules' := Start(heap', n', base + convs[i].start, convs[i].steps, out, schedules');
      SchedulesMore(convs, base, i);
      assert convs[i].steps != [] ==> n' - 1 in heap';
      assert convs[..i + 1] == convs[..i] + [convs[i]];
    }
    assert convs[..|convs|] == convs;
  }

  // ----- The merge -----

  predicate Least(heap: Heap, k: nat) {
    k in heap && forall j :: j in heap ==> NotAfter(heap[k].time, k, heap[j].time, j)
  }

  lemma {:induction false} SomeLeast(heap: Heap)
    requires heap != map[]
    ensures exists k :: Least(heap, k)
    decreases |heap|
  {
    var x :| x in heap;
    var rest := heap - {x};
    if rest != map[] {
      SomeLeast(rest);
      var k :| Least(rest, k);
      if NotAfter(heap[k].time, k, heap[x].time, x) {
        LeastWithOneMore(heap, x, k);
      } else {
        assert Least(heap, x) by {
          assert forall j :: j in heap ==> j == x || j in rest;
        }
      }
    } else {
      assert Least(heap, x) by {
        assert forall j :: j in heap ==> j == x || j in rest;
      }
    }
  }

  lemma LeastWithOneMore(heap: Heap, x: nat, k: nat)
    requires x in heap && Least(heap - {x}, k) && NotAfter(heap[k].time, k, heap[x].time, x)
    ensures Least(heap, k)
  {
    forall j | j in heap
      ensures NotAfter(heap[k].time, k, heap[j].time, j)
    {
      assert j != x ==> j in heap - {x};
    }
  }

  /** The number of the earliest pending frame, the lowest one where several are due. */
  method Earliest(heap: Heap) returns (k: nat)
    requires heap != map[]
    ensures Least(heap, k)
  {
    SomeLeast(heap);
    k :| k in heap && Least(heap, k);
  }

  function Popped(heap: Heap, k: nat): Heap
    requires k in heap
  {
    var p := heap[k];
    if p.rest == [] then heap - {k} else heap[k := First(p.time, p.rest)]
  }

  lemma PoppedConserves(heap: Heap, k: nat, out: seq<Emitted>, schedules: seq<seq<Timed>>)
    requires Conserves(heap, out, schedules) && k in heap
    ensures Conserves(Popped(heap, k), out + [Emitted(heap[k].time, k, heap[k].frame)], schedules)
  {
    hide Of, Left, Popped;
    var e := Emitted(heap[k].time, k, heap[k].frame);
    forall i | 0 <= i < |schedules|
      ensures schedules[i] == Of(out + [e], i) + Left(Popped(heap, k), i)
    {
      OfMore(out, e, i);
      LeftPopped(heap, k, i);
      Assoc(Of(out, i), [Timed(e.time, e.frame)], Left(Popped(heap, k), i));
    }
  }

  lemma LeftPopped(heap: Heap, k: nat, i: nat)
    requires k in heap
    ensures Left(heap, i) == (if i == k then [Timed(heap[k].time, heap[k].frame)] else []) + Left(Popped(heap, k), i)
  {
    hide Schedule;
    ScheduleIsAhead(heap[k].time, heap[k].rest);
  }

  lemma PoppedOrdered(heap: Heap, k: nat, out: seq<Emitted>)
    requires InOrder(out) && NothingOverdue(out, heap) && Least(heap, k)
    ensures InOrder(out + [Emitted(heap[k].time, k, heap[k].frame)])
    ensures NothingOverdue(out + [Emitted(heap[k].time, k, heap[k].frame)], Popped(heap, k))
    ensures DueBy(out + [Emitted(heap[k].time, k, heap[k].frame)], heap[k].time)
  {
    var heap' := Popped(heap, k);
    forall j | j in heap'
      ensures j in heap && heap[j].time <= heap'[j].time
    {
    }
  }

  lemma PoppedMerges(heap: Heap, k: nat, out: seq<Emitted>, schedules: seq<seq<Timed>>)
    requires Merged(heap, out, schedules) && Least(heap, k)
    ensures Merged(Popped(heap, k), out + [Emitted(heap[k].time, k, heap[k].frame)], schedules)
    ensures DueBy(out + [Emitted(heap[k].time, k, heap[k].frame)], heap[k].time)
  {
    hide Conserves, InOrder, NothingOverdue, DueBy;
    PoppedConserves(heap, k, out, schedules);
    PoppedOrdered(heap, k, out);
  }

  /** Not only the next frame: whatever is left of a schedule is due no earlier than anything written. */
  lemma NothingLeftIsEarlier(heap: Heap, out: seq<Emitted>, schedules: seq<seq<Timed>>, k: nat)
    requires Merged(heap, out, schedules) && k < |schedules|
    ensures Of(out, k) <= schedules[k]
    ensures forall e, t :: e in out && t in schedules[k][|Of(out, k)|..] ==> e.time <= t.time
  {
    hide Of;
    if k in heap {
      ScheduleNotBefore(heap[k].time, heap[k].rest);
    }
  }

  /** The start of the merge of all schedules: what is written of each is its start, in order, and
      whatever is left of one is due no earlier than anything written. */
  ghost predicate IsMerge(out: seq<Emitted>, schedules: seq<seq<Timed>>) {
    && InOrder(out) && (forall e :: e in out ==> e.number < |schedules|)
    && (forall k :: 0 <= k < |schedules| ==> Of(out, k) <= schedules[k])
    && forall e, k :: e in out && 0 <= k < |schedules| && |Of(out, k)| < |schedules[k]| ==>
         NotAfter(e.time, e.number, schedules[k][|Of(out, k)|].time, k)
  }

  /** The same word by word: by time, and by number where times are equal; each conversation from its start
      and in its own order, and none of what it still has to say due before what was written. */
  lemma MergeMeans(out: seq<Emitted>, schedules: seq<seq<Timed>>)
    requires IsMerge(out, schedules)
    ensures forall i, j :: 0 <= i < j < |out| ==>
              out[i].time < out[j].time || (out[i].time == out[j].time && out[i].number <= out[j].number)
    ensures forall e :: e in out ==> e.number < |schedules|
    ensures forall k :: 0 <= k < |schedules| ==> Of(out, k) <= schedules[k]
    ensures forall e, k :: e in out && 0 <= k < |schedules| && |Of(out, k)| < |schedules[k]| ==>
              var next := schedules[k][|Of(out, k)|];
              e.time < next.time || (e.time == next.time && e.number <= k)
  {
  }

  /** The frames of a conversation come in its order, each its own gap after the one before. */
  lemma {:induction false} ScheduleMeans(at: nat, steps: seq<Step>)
    ensures var s := Schedule(at, steps);
            && |s| == |steps|
            && (forall i :: 0 <= i < |s| ==> s[i].frame == steps[i].frame)
            && (|s| > 0 ==> s[0].time == at + steps[0].gap)
            && forall i :: 0 < i < |s| ==> s[i].time == s[i - 1].time + steps[i].gap
    decreases |steps|
  {
    if steps != [] {
      ScheduleMeans(at + steps[0].gap, steps[1..]);
    }
  }

  lemma MergedIsMerge(heap: Heap, out: seq<Emitted>, schedules: seq<seq<Timed>>)
    requires Merged(heap, out, schedules)
    ensures IsMerge(out, schedules)
  {
    hide Of, InOrder, Schedule;
    forall k | 0 <= k < |schedules| && |Of(out, k)| < |schedules[k]|
      ensures k in heap && schedules[k][|Of(out, k)|].time == heap[k].time
    {
      assert schedules[k] == Of(out, k) + Left(heap, k);
    }
  }

  /** A merge without its last frame is a merge; and the frame was the next one of its conversation. */
  lemma ShorterMerge(out: seq<Emitted>, schedules: seq<seq<Timed>>)
    requires IsMerge(out, schedules) && out != []
    ensures var front, e := out[..|out| - 1], out[|out| - 1];
            && IsMerge(front, schedules) && e.number < |schedules| && |Of(front, e.number)| < |schedules[e.number]|
            && schedules[e.number][|Of(front, e.number)|] == Timed(e.time, e.frame)
  {
    var front, e := out[..|out| - 1], out[|out| - 1];
    assert out == front + [e];
    hide Of;
    forall k | 0 <= k < |schedules|
      ensures Of(front, k) <= schedules[k]
      ensures k == e.number ==>
                |Of(front, k)| < |schedules[k]| && schedules[k][|Of(front, k)|] == Timed(e.time, e.frame)
      ensures k != e.number ==> Of(front, k) == Of(out, k)
    {
      OfMore(front, e, k);
    }
  }

  lemma BothWays(e: Emitted, e': Emitted)
    requires NotAfter(e.time, e.number, e'.time, e'.number) && NotAfter(e'.time, e'.number, e.time, e.number)
    ensures e.number == e'.number
  {
  }

  /** There is only one merge of given schedules and length. */
  lemma {:induction false} MergeIsDetermined(out: seq<Emitted>, out': seq<Emitted>, schedules: seq<seq<Timed>>)
    requires IsMerge(out, schedules) && IsMerge(out', schedules) && |out| == |out'|
    ensures out == out'
    decreases |out|
  {
    hide IsMerge, Of, NotAfter;
    if out != [] {
      var front, e, front', e' := out[..|out| - 1], out[|out| - 1], out'[..|out| - 1], out'[|out| - 1];
      ShorterMerge(out, schedules);
      ShorterMerge(out', schedules);
      MergeIsDetermined(front, front', schedules);
      assert out == front + [e] && out' == front' + [e'];
      if e.number != e'.number {
        NextOfOther(front, e, e', schedules);
        NextOfOther(front', e', e, schedules);
        BothWays(e, e');
      }
    }
  }

  /** When `e` has been written and not `e'`, the next frame of another conversation, then `e` comes first. */
  lemma NextOfOther(front: seq<Emitted>, e: Emitted, e': Emitted, schedules: seq<seq<Timed>>)
    requires IsMerge(front + [e], schedules) && e.number != e'.number < |schedules|
    requires |Of(front, e'.number)| < |schedules[e'.number]|
    requires schedules[e'.number][|Of(front, e'.number)|] == Timed(e'.time, e'.frame)
    ensures NotAfter(e.time, e.number, e'.time, e'.number)
  {
    OfMore(front, e, e'.number);
    assert e in front + [e];
  }

  function Total(schedules: seq<seq<Timed>>): nat {
    if schedules == [] then 0 else Total(schedules[..|schedules| - 1]) + |schedules[|schedules| - 1]|
  }

  function OutCount(out: seq<Emitted>, n: nat): nat {
    if n == 0 then 0 else OutCount(out, n - 1) + |Of(out, n - 1)|
  }

  lemma {:induction false} OutCountMore(out: seq<Emitted>, e: Emitted, n: nat)
    ensures OutCount(out + [e], n) == OutCount(out, n) + if e.number < n then 1 else 0
  {
    if n > 0 {
      OutCountMore(out, e, n - 1);
      OfMore(out, e, n - 1);
    }
  }

  lemma {:induction false} OutCountIsLength(out: seq<Emitted>, n: nat)
    requires forall e :: e in out ==> e.number < n
    ensures OutCount(out, n) == |out|
  {
    if out == [] {
      NoneCounted(n);
    } else {
      var front := out[..|out| - 1];
      OutCountIsLength(front, n);
      OutCountMore(front, out[|out| - 1], n);
      assert out == front + [out[|out| - 1]];
    }
  }

  lemma {:induction false} NoneCounted(n: nat)
    ensures OutCount([], n) == 0
  {
    if n > 0 {
      NoneCounted(n - 1);
    }
  }

  lemma {:induction false} CountAtMostTotal(out: seq<Emitted>, schedules: seq<seq<Timed>>)
    requires forall k :: 0 <= k < |schedules| ==> Of(out, k) <= schedules[k]
    ensures OutCount(out, |schedules|) <= Total(schedules)
  {
    if schedules != [] {
      CountAtMostTotal(out, schedules[..|schedules| - 1]);
    }
  }

  lemma MergeWithinTotal(out: seq<Emitted>, schedules: seq<seq<Timed>>)
    requires IsMerge(out, schedules)
    ensures |out| <= Total(schedules)
  {
    OutCountIsLength(out, |schedules|);
    CountAtMostTotal(out, schedules);
  }

  /** When nothing is pending, every frame of every conversation has been written. */
  lemma EmptyHeapWroteAll(out: seq<Emitted>, schedules: seq<seq<Timed>>)
    requires Merged(map[], out, schedules)
    ensures |out| == Total(schedules)
  {
    OutCountIsLength(out, |schedules|);
    SameTotal(out, schedules);
  }

  lemma {:induction false} SameTotal(out: seq<Emitted>, schedules: seq<seq<Timed>>)
    requires forall k :: 0 <= k < |schedules| ==> schedules[k] == Of(out, k)
    ensures OutCount(out, |schedules|) == Total(schedules)
  {
    if schedules != [] {
      SameTotal(out, schedules[..|schedules| - 1]);
    }
  }

  /** The batches that keep the traffic going when every planned conversation has ended. A batch has at
      least one conversation, and a TCP conversation always opens with a frame. */
  type TopUps = nat -> seq<Conversation>

  ghost predicate KeepsGoing(topUps: TopUps) {
    forall i :: exists c :: c in topUps(i) && c.steps != []
  }

  lemma NothingYet()
    ensures Merged(map[], [], []) && DueBy([], 0)
  {
  }

  lemma LeastIsIn(heap: Heap, k: nat)
    requires Least(heap, k)
    ensures k in heap
  {
  }

  function LatestOf(s: seq<Timed>): nat {
    if s == [] then 0 else Max(LatestOf(s[..|s| - 1]), s[|s| - 1].time)
  }

  /** The time of the last frame of all, 0 if there is none. */
  function Latest(schedules: seq<seq<Timed>>): nat {
    if schedules == [] then 0 else Max(Latest(schedules[..|schedules| - 1]), LatestOf(schedules[|schedules| - 1]))
  }

  function LastTime(out: seq<Emitted>): nat {
    if out == [] then 0 else out[|out| - 1].time
  }

  lemma {:induction false} LatestOfBounds(s: seq<Timed>, bound: nat)
    ensures forall e :: e in s ==> e.time <= LatestOf(s)
    ensures (forall e :: e in s ==> e.time <= bound) ==> LatestOf(s) <= bound
  {
    if s != [] {
      LatestOfBounds(s[..|s| - 1], bound);
      assert s == s[..|s| - 1] + [s[|s| - 1]];
    }
  }

  lemma {:induction false} LatestBounds(schedules: seq<seq<Timed>>, bound: nat)
    ensures forall k :: 0 <= k < |schedules| ==> LatestOf(schedules[k]) <= Latest(schedules)
    ensures (forall k :: 0 <= k < |schedules| ==> LatestOf(schedules[k]) <= bound) ==> Latest(schedules) <= bound
  {
    if schedules != [] {
      LatestBounds(schedules[..|schedules| - 1], bound);
    }
  }

  lemma {:induction false} OfComesFrom(out: seq<Emitted>, k: nat)
    ensures forall t :: t in Of(out, k) ==> exists e :: e in out && e.number == k && e.time == t.time
    ensures forall e :: e in out && e.number == k ==> Timed(e.time, e.frame) in Of(out, k)
  {
    if out != [] {
      OfComesFrom(out[..|out| - 1], k);
      assert out == out[..|out| - 1] + [out[|out| - 1]];
    }
  }

  lemma LastBounds(out: seq<Emitted>, e: Emitted)
    requires InOrder(out) && e in out
    ensures e.time <= LastTime(out)
  {
  }

  lemma LatestOfOne(out: seq<Emitted>, k: nat)
    requires InOrder(out)
    ensures LatestOf(Of(out, k)) <= LastTime(out)
  {
    hide Of, InOrder, LastTime, LatestOf;
    OfComesFrom(out, k);
    forall t | t in Of(out, k)
      ensures t.time <= LastTime(out)
    {
      var e :| e in out && e.number == k && e.time == t.time;
      LastBounds(out, e);
    }
    LatestOfBounds(Of(out, k), LastTime(out));
  }

  /** When everything has been written, the last frame written is the last one of all. */
  lemma LastIsLatest(out: seq<Emitted>, schedules: seq<seq<Timed>>)
    requires Merged(map[], out, schedules)
    ensures LastTime(out) == Latest(schedules)
  {
    hide Of, InOrder, Latest, LatestOf;
    forall k | 0 <= k < |schedules|
      ensures schedules[k] == Of(out, k) && LatestOf(schedules[k]) <= LastTime(out)
    {
      assert schedules[k] == Of(out, k) + Left(map[], k);
      LatestOfOne(out, k);
    }
    LatestBounds(schedules, LastTime(out));
    if out != [] {
      var e := out[|out| - 1];
      assert e in out;
      OfComesFrom(out, e.number);
      LatestOfBounds(schedules[e.number], 0);
    }
  }

  /** The schedules after `b` top-ups, each of which starts at the last frame of those before. */
  function AfterBatches(convs: seq<Conversation>, topUps: TopUps, b: nat): seq<seq<Timed>> {
    if b == 0 then Schedules(convs, 0)
    else
      var before := AfterBatches(convs, topUps, b - 1);
      before + Schedules(topUps(b - 1), Latest(before))
  }

  function ToppedUp(topUps: TopUps, b: nat): nat {
    if b == 0 then 0 else ToppedUp(topUps, b - 1) + |topUps(b - 1)|
  }

  /** Batch by batch: the next one starts at the last frame of those before and is counted in full. */
  lemma BatchesMean(convs: seq<Conversation>, topUps: TopUps, b: nat)
    ensures AfterBatches(convs, topUps, 0) == Schedules(convs, 0) && ToppedUp(topUps, 0) == 0
    ensures var before := AfterBatches(convs, topUps, b);
            AfterBatches(convs, topUps, b + 1) == before + Schedules(topUps(b), Latest(before))
    ensures ToppedUp(topUps, b + 1) == ToppedUp(topUps, b) + |topUps(b)|
  {
    hide Schedules, Latest;
  }

  /** Exactly the requested number of frames, and they are the start of the merge of all schedules; of
      those beyond the planned ones there are as many batches as it takes. */
  method Generate(convs: seq<Conversation>, flows: nat, topUps: TopUps, packets: nat)
    returns (out: seq<Emitted>, started: nat, ghost batches: nat)
    requires KeepsGoing(topUps)
    ensures |out| == packets && IsMerge(out, AfterBatches(convs, topUps, batches))
    ensures forall b :: 0 <= b < batches ==> Total(AfterBatches(convs, topUps, b)) < packets
    ensures packets <= Total(AfterBatches(convs, topUps, batches))
    ensures started == flows + ToppedUp(topUps, batches)
  {
    hide Merged, Schedules, Total, Popped, Least, DueBy, Latest, IsMerge;
    out, started := [], flows;
    ghost var schedules: seq<seq<Timed>> := [];
    NothingYet();
    var n: nat, b: nat, lastUs: nat, heap: Heap := 0, 0, 0, map[];
    heap, n, schedules := StartAll(heap, n, 0, convs, out, schedules);
    assert [] + Schedules(convs, 0) == Schedules(convs, 0);
    while |out| < packets
      invariant |out| <= packets && n == |schedules| && lastUs == LastTime(out)
      invariant Merged(heap, out, schedules) && DueBy(out, lastUs)
      invariant schedules == AfterBatches(convs, topUps, b) && started == flows + ToppedUp(topUps, b)
      invariant forall i :: 0 <= i < b ==> Total(AfterBatches(convs, topUps, i)) < packets
      decreases packets - |out|, if heap == map[] then 1 else 0
    {
      if heap == map[] {
        EmptyHeapWroteAll(out, schedules);
        LastIsLatest(out, schedules);
        var batch := topUps(b);
        heap, n, schedules := StartAll(heap, n, lastUs, batch, out, schedules);
        started := started + |batch|;
        b := b + 1;
      } else {
        var k := Earliest(heap);
        assert k in heap by { LeastIsIn(heap, k); }
        PoppedMerges(heap, k, out, schedules);
        lastUs := heap[k].time;
        out := out + [Emitted(heap[k].time, k, heap[k].frame)];
        heap := Popped(heap, k);
      }
    }
    MergedIsMerge(heap, out, schedules);
    MergeWithinTotal(out, schedules);
    batches := b;
  }

  // ----- The file -----

  predicate Storable(e: Emitted) {
    EPOCH + e.time / 1_000_000 < 0x1_0000_0000 && |e.frame| <= MAX_CAPLEN
  }

  function Raw(e: Emitted): (r: RawRecord)
    requires Storable(e)
    ensures Writable(r)
  {
    RawRecord(EPOCH + e.time / 1_000_000, e.time % 1_000_000, e.frame, |e.frame|)
  }

  ghost function Raws(out: seq<Emitted>): (rs: seq<RawRecord>)
    requires forall e :: e in out ==> Storable(e)
    ensures |rs| == |out| && (forall i :: 0 <= i < |rs| ==> rs[i] == Raw(out[i])) && AllWritable(rs)
  {
    if out == [] then [] else Raws(out[..|out| - 1]) + [Raw(out[|out| - 1])]
  }

  /** The analyzer reads the generated file to its end, frame by frame, with timestamps that never
      decrease. */
  lemma GeneratedFileReads(out: seq<Emitted>)
    requires InOrder(out) && forall e :: e in out ==> Storable(e)
    ensures var c := ReadFile(FileBytes(Raws(out), false, false, 65535, LINKTYPE_ETHERNET));
            && c.status == PcapEof && |c.records| == |out|
            && (forall i :: 0 <= i < |out| ==>
                  && c.records[i].ts == (1_700_000_000 * 1_000_000 + out[i].time) * 1000
                  && c.records[i].data == out[i].frame && c.records[i].wirelen == |out[i].frame|)
            && forall i, j :: 0 <= i < j < |out| ==> c.records[i].ts <= c.records[j].ts
  {
    hide ReadFile, FileBytes;
    var rs := Raws(out);
    FileRoundTrip(rs, false, false, 65535, LINKTYPE_ETHERNET);
    forall i | 0 <= i < |out|
      ensures AllAsRead(rs, false)[i].ts == (1_700_000_000 * 1_000_000 + out[i].time) * 1000
      ensures AllAsRead(rs, false)[i].data == out[i].frame && AllAsRead(rs, false)[i].wirelen == |out[i].frame|
    {
      AsReadAt(rs, false, i);
    }
  }
}
