/** The locked part of sensors_poll_context_t::poll(): a round-robin scan over the queues of all
    sub-HALs that remaps each event's handle and drops events of unregistered sensors. */
module PollScan {
  import opened Common
  import opened HandleRegistry
  import opened EventQueue

  /** A sensors_event_t. `MetaData` is an event of type SENSOR_TYPE_META_DATA: its own sensor field
      should be 0 and the handle that matters is the nested one. */
  datatype Event =
    | Reading(sensor: int, body: int)
    | MetaData(sensor: int, inner: int, body: int)

  /** copy_event_remap_handle(): `source` is the index of the queue the event comes from. */
  function Remap(t: Tables, source: nat, e: Event): Event {
    match e
    case Reading(sensor, body) => Reading(t.GlobalHandle(FullHandle(source, sensor)), body)
    case MetaData(sensor, inner, body) => MetaData(sensor, t.GlobalHandle(FullHandle(source, inner)), body)
  }

  predicate Deliverable(t: Tables, source: nat, e: Event) {
    Remap(t, source, e).sensor != -1
  }

  /** Exactly the readings of unregistered sensors are dropped, and of the metadata events those
      whose own sensor field is already -1. The global handle put into an event, or into the nested
      event of a metadata event, resolves back to the module it came from and to the local handle it
      carried, or is -1 exactly when that sensor is unregistered. Nothing else changes. */
  lemma RemapIsSound(fulls: seq<FullHandle>, source: nat, e: Event)
    ensures var t := AssignAll(fulls);
            var r := Remap(t, source, e);
            var local := if e.Reading? then e.sensor else e.inner;
            var global := if r.Reading? then r.sensor else r.inner;
            && (e.Reading? <==> r.Reading?) && r.body == e.body
            && (e.MetaData? ==> r.sensor == e.sensor)
            && (global == -1 <==> FullHandle(source, local) !in fulls)
            && (global != -1 ==> t.ModuleIndex(global) == source && t.LocalHandle(global) == local)
            && (Deliverable(t, source, e) <==>
                  if e.Reading? then FullHandle(source, e.sensor) in fulls else e.sensor != -1)
  {
    AssignedHandles(fulls);
  }

  /** What a reader of `events` from queue `source` passes upstream: the remapped deliverable ones. */
  function Upstream(t: Tables, source: nat, events: seq<Event>): seq<Event> {
    if events == [] then []
    else (if Deliverable(t, source, events[0]) then [Remap(t, source, events[0])] else [])
         + Upstream(t, source, events[1..])
  }

  function Dropped(t: Tables, source: nat, events: seq<Event>): nat {
    if events == [] then 0
    else (if Deliverable(t, source, events[0]) then 0 else 1) + Dropped(t, source, events[1..])
  }

  lemma {:induction false} UpstreamConcat(t: Tables, source: nat, a: seq<Event>, b: seq<Event>)
    ensures Upstream(t, source, a + b) == Upstream(t, source, a) + Upstream(t, source, b)
  {
    if a == [] {
      assert a + b == b;
    } else {
      UpstreamConcat(t, source, a[1..], b);
      assert (a + b)[1..] == a[1..] + b && (a + b)[0] == a[0];
      var head := if Deliverable(t, source, a[0]) then [Remap(t, source, a[0])] else [];
      Regroup(head, Upstream(t, source, a[1..]), Upstream(t, source, b));
    }
  }

  lemma {:induction false} DeliveredOrDropped(t: Tables, source: nat, events: seq<Event>)
    ensures |events| == |Upstream(t, source, events)| + Dropped(t, source, events)
  {
    if events != [] {
      DeliveredOrDropped(t, source, events[1..]);
    }
  }

  /** An event poll() has put into the caller's buffer, with the queue it was taken from. */
  datatype Delivery = Delivery(source: nat, event: Event)

  /** The events of one source, in the order of the log. */
  function From(log: seq<Delivery>, source: nat): seq<Event> {
    if log == [] then []
    else From(log[..|log| - 1], source)
         + (if log[|log| - 1].source == source then [log[|log| - 1].event] else [])
  }

  lemma FromAppend(log: seq<Delivery>, d: Delivery, source: nat)
    ensures From(log + [d], source) == From(log, source) + (if d.source == source then [d.event] else [])
  {
    assert (log + [d])[..|log|] == log;
  }

  lemma {:induction false} FromConcat(a: seq<Delivery>, b: seq<Delivery>, source: nat)
    ensures From(a + b, source) == From(a, source) + From(b, source)
  {
    if b == [] {
      assert a + b == a;
    } else {
      var n := |b| - 1;
      FromConcat(a, b[..n], source);
      assert (a + b)[..|a| + n] == a + b[..n];
    }
  }

  // Sums over all queues.

  function TotalQueued(queues: seq<seq<Event>>): nat {
    if queues == [] then 0 else TotalQueued(queues[..|queues| - 1]) + |queues[|queues| - 1]|
  }

  function TotalDeliverable(t: Tables, queues: seq<seq<Event>>): nat {
    if queues == [] then 0
    else
      var n := |queues| - 1;
      TotalDeliverable(t, queues[..n]) + |Upstream(t, n, queues[n])|
  }

  lemma {:induction false} TotalsUpdate(t: Tables, queues: seq<seq<Event>>, i: nat, q: seq<Event>)
    requires i < |queues|
    ensures var updated := queues[i := q];
            && TotalQueued(updated) == TotalQueued(queues) - |queues[i]| + |q|
            && TotalDeliverable(t, updated)
               == TotalDeliverable(t, queues) - |Upstream(t, i, queues[i])| + |Upstream(t, i, q)|
  {
    var n := |queues| - 1;
    var updated := queues[i := q];
    if i < n {
      TotalsUpdate(t, queues[..n], i, q);
      assert updated[..n] == queues[..n][i := q];
    } else {
      assert updated[..n] == queues[..n];
    }
  }

  lemma {:induction false} TotalsOfEmpty(t: Tables, queues: seq<seq<Event>>)
    requires forall i :: 0 <= i < |queues| ==> queues[i] == []
    ensures TotalQueued(queues) == 0 && TotalDeliverable(t, queues) == 0
  {
    if queues != [] {
      TotalsOfEmpty(t, queues[..|queues| - 1]);
    }
  }

  /** How many steps of the ring ago index i was visited last, if the next visit is to `next`. */
  function Behind(i: nat, next: nat, count: nat): int {
    if i < next then next - i else next + count - i
  }

  /** How many steps of the ring until index i is visited. */
  function Ahead(i: nat, next: nat, count: nat): int {
    if i < next then i + count - next else i - next
  }

  /** The ring position after `next`. */
  function Following(next: nat, count: nat): (r: nat)
    requires next < count
    ensures r == if next + 1 == count then 0 else next + 1
  {
    WrapOnce(next + 1, count);
    (next + 1) % count
  }

  /** The variables of the scan; `out` is the filled part of the caller's buffer. */
  datatype Scan = Scan(queues: seq<seq<Event>>, next: nat, empties: nat, out: seq<Delivery>) {

    predicate Continues(maxReads: int) {
      empties < |queues| && |out| < maxReads
    }

    /** The `empties` ring positions visited last are known to be empty. */
    ghost predicate Valid() {
      && (next < |queues| || next == |queues| == 0)
      && empties <= |queues|
      && forall i :: 0 <= i < |queues| && Behind(i, next, |queues|) <= empties ==> queues[i] == []
    }

    /** One iteration of the inner loop. */
    function Iterate(t: Tables): Scan
      requires next < |queues|
    {
      var q := queues[next];
      var following := Following(next, |queues|);
      if q == [] then
        this.(next := following, empties := empties + 1)
      else
        var event := Remap(t, next, q[0]);
        Scan(queues[next := q[1..]], following, 0,
             if event.sensor == -1 then out else out + [Delivery(next, event)])
    }

    /** The whole inner loop. */
    ghost function Finish(t: Tables, maxReads: int): Scan
      requires Valid()
      decreases TotalQueued(queues), |queues| - empties
    {
      if Continues(maxReads) then
        IterateKeeps(t, this);
        Iterate(t).Finish(t, maxReads)
      else this
    }
  }

  lemma IterateKeepsValid(t: Tables, s: Scan)
    requires s.Valid() && s.next < |s.queues| && s.empties < |s.queues|
    ensures var s' := s.Iterate(t);
            && s'.Valid() && |s'.queues| == |s.queues|
            && s'.next == (if s.next + 1 == |s.queues| then 0 else s.next + 1)
  {
    var s' := s.Iterate(t);
    var n := |s.queues|;
    forall i | 0 <= i < n && Behind(i, s'.next, n) <= s'.empties
      ensures s'.queues[i] == []
    {
      assert s.queues[s.next] == [];
      if i != s.next {
        assert Behind(i, s'.next, n) == Behind(i, s.next, n) + 1;
      }
    }
  }

  lemma IterateMeasures(t: Tables, s: Scan)
    requires s.next < |s.queues|
    ensures var s' := s.Iterate(t);
            && |s.out| <= |s'.out| <= |s.out| + 1
            && (|| TotalQueued(s'.queues) < TotalQueued(s.queues)
                || (TotalQueued(s'.queues) == TotalQueued(s.queues) && s'.empties == s.empties + 1))
            && |s'.out| + TotalDeliverable(t, s'.queues) == |s.out| + TotalDeliverable(t, s.queues)
  {
    var q := s.queues[s.next];
    if q != [] {
      TotalsUpdate(t, s.queues, s.next, q[1..]);
    }
  }

  lemma IterateConserves(t: Tables, s: Scan, i: nat)
    requires s.next < |s.queues| && i < |s.queues|
    ensures var s' := s.Iterate(t);
            From(s'.out, i) + Upstream(t, i, s'.queues[i]) == From(s.out, i) + Upstream(t, i, s.queues[i])
  {
    var s' := s.Iterate(t);
    var q := s.queues[s.next];
    if q != [] {
      var event := Remap(t, s.next, q[0]);
      FromAppend(s.out, Delivery(s.next, event), i);
      if i == s.next {
        var passed := if event.sensor == -1 then [] else [event];
        assert From(s'.out, i) == From(s.out, i) + passed;
        Regroup(From(s.out, i), passed, Upstream(t, i, q[1..]));
      } else {
        assert s'.queues[i] == s.queues[i];
      }
    }
  }

  /** One iteration keeps the scan's invariant; decreases the pair of queued events and positions not
      known empty; and preserves, for every queue, what has been passed upstream from it followed by
      what remains to be passed, and so their number over all queues. */
  lemma IterateKeeps(t: Tables, s: Scan)
    requires s.Valid() && s.next < |s.queues| && s.empties < |s.queues|
    ensures var s' := s.Iterate(t);
            && s'.Valid() && |s'.queues| == |s.queues|
            && s'.next == (if s.next + 1 == |s.queues| then 0 else s.next + 1)
            && |s.out| <= |s'.out| <= |s.out| + 1
            && (|| TotalQueued(s'.queues) < TotalQueued(s.queues)
                || (TotalQueued(s'.queues) == TotalQueued(s.queues) && s'.empties == s.empties + 1))
            && |s'.out| + TotalDeliverable(t, s'.queues) == |s.out| + TotalDeliverable(t, s.queues)
            && forall i: nat :: i < |s.queues| ==>
                 From(s'.out, i) + Upstream(t, i, s'.queues[i]) == From(s.out, i) + Upstream(t, i, s.queues[i])
  {
    IterateKeepsValid(t, s);
    IterateMeasures(t, s);
    forall i: nat | i < |s.queues|
      ensures var s' := s.Iterate(t);
              From(s'.out, i) + Upstream(t, i, s'.queues[i]) == From(s.out, i) + Upstream(t, i, s.queues[i])
    {
      IterateConserves(t, s, i);
    }
  }

  /** The scan is exact: it returns as many events as the caller asked for or as many as can be
      delivered from all queues together, whichever is less; it returns fewer only with every queue
      empty; and what it took from each queue is a prefix of it, in order. */
  lemma {:induction false} FinishIsExact(t: Tables, s: Scan, maxReads: int)
    requires s.Valid() && |s.out| <= maxReads
    ensures var f := s.Finish(t, maxReads);
            var available := |s.out| + TotalDeliverable(t, s.queues);
            && f.Valid() && |f.queues| == |s.queues| && !f.Continues(maxReads)
            && |f.out| == (if available < maxReads then available else maxReads)
            && (|f.out| < maxReads ==> forall i :: 0 <= i < |f.queues| ==> f.queues[i] == [])
            && forall i: nat :: i < |s.queues| ==>
                 From(f.out, i) + Upstream(t, i, f.queues[i]) == From(s.out, i) + Upstream(t, i, s.queues[i])
    decreases TotalQueued(s.queues), |s.queues| - s.empties
  {
    if s.Continues(maxReads) {
      IterateKeeps(t, s);
      FinishIsExact(t, s.Iterate(t), maxReads);
    } else if |s.out| < maxReads {
      TotalsOfEmpty(t, s.queues);
    }
  }

  /** One iteration as the loop sees it. */
  lemma OneMoreIteration(t: Tables, s: Scan, maxReads: int)
    requires s.Valid() && s.Continues(maxReads)
    ensures var s' := s.Iterate(t);
            && s'.Valid() && |s'.queues| == |s.queues|
            && TotalQueued(s'.queues) <= TotalQueued(s.queues)
            && (TotalQueued(s'.queues) == TotalQueued(s.queues) ==> s'.empties == s.empties + 1)
            && s'.Finish(t, maxReads) == s.Finish(t, maxReads)
  {
    IterateKeeps(t, s);
  }

  lemma ScanCount(t: Tables, s: Scan, maxReads: int)
    requires s.Valid() && s.out == []
    ensures var available := TotalDeliverable(t, s.queues);
            maxReads >= 0 ==> |s.Finish(t, maxReads).out| == if available < maxReads then available else maxReads
  {
    if maxReads >= 0 {
      FinishIsExact(t, s, maxReads);
    }
  }

  ghost function Buffers(queues: seq<SensorEventQueue<Event>>): set<array<Event>> {
    set q <- queues :: q.mData
  }

  ghost predicate QueuesValid(queues: seq<SensorEventQueue<Event>>)
    reads queues, Buffers(queues)
  {
    && (forall i :: 0 <= i < |queues| ==> queues[i].Valid())
    && (forall i, j :: 0 <= i < j < |queues| ==> queues[i] != queues[j])
  }

  /** The first `read` slots of the caller's buffer hold the events of `out`. */
  ghost predicate Filled(data: array<Event>, read: int, out: seq<Delivery>)
    reads data
  {
    read == |out| <= data.Length && forall k :: 0 <= k < read ==> data[k] == out[k].event
  }

  ghost function Backlog(queue: SensorEventQueue<Event>): seq<Event>
    requires queue.Valid()
    reads queue, queue.mData
  {
    queue.View().Readable()
  }

  ghost function QueueContents(queues: seq<SensorEventQueue<Event>>): (r: seq<seq<Event>>)
    requires QueuesValid(queues)
    reads queues, Buffers(queues)
    ensures |r| == |queues|
    ensures forall i :: 0 <= i < |queues| ==> r[i] == Backlog(queues[i])
  {
    if queues == [] then []
    else QueueContents(queues[..|queues| - 1]) + [Backlog(queues[|queues| - 1])]
  }

  /** The poll context: the queues of the sub-HALs and where the next scan starts. */
  class PollContext {
    const tables: Tables
    var queues: seq<SensorEventQueue<Event>>
    var nextReadIndex: nat

    constructor (tables: Tables)
      ensures Valid() && queues == [] && this.tables == tables
    {
      this.tables := tables;
      queues := [];
      nextReadIndex := 0;
    }

    ghost predicate Valid()
      reads this, queues, Buffers(queues)
    {
      (nextReadIndex < |queues| || nextReadIndex == |queues| == 0) && QueuesValid(queues)
    }

    ghost function View(empties: nat, out: seq<Delivery>): Scan
      requires Valid()
      reads this, queues, Buffers(queues)
    {
      Scan(QueueContents(queues), nextReadIndex, empties, out)
    }

    /** Removes the oldest event of the queue at `nextReadIndex`; no other queue changes. */
    method DequeueCurrent(ghost data: array<Event>)
      requires Valid() && nextReadIndex < |queues| && QueueContents(queues)[nextReadIndex] != []
      modifies queues
      ensures unchanged(data)
      ensures Valid() && queues == old(queues) && nextReadIndex == old(nextReadIndex)
      ensures var before := old(QueueContents(queues));
              QueueContents(queues) == before[nextReadIndex := before[nextReadIndex][1..]]
    {
      ghost var before := QueueContents(queues);
      var current := queues[nextReadIndex];
      var _ := current.Dequeue();
      forall i | 0 <= i < |queues|
        ensures queues[i].Valid()
        ensures Backlog(queues[i]) == before[nextReadIndex := before[nextReadIndex][1..]][i]
      {
        if i != nextReadIndex {
          assert queues[i] != current;
        }
      }
    }

    /** copy_event_remap_handle() into slot `k` of the caller's buffer, which no queue uses. */
    method CopyRemapped(data: array<Event>, k: nat, event: Event)
      requires Valid() && k < data.Length && data !in Buffers(queues)
      modifies data
      ensures Valid() && queues == old(queues) && nextReadIndex == old(nextReadIndex)
      ensures QueueContents(queues) == old(QueueContents(queues))
      ensures data[k] == Remap(tables, nextReadIndex, event) && forall j :: 0 <= j < k ==> data[j] == old(data[j])
    {
      data[k] := Remap(tables, nextReadIndex, event);
    }

    method Advance()
      requires Valid() && queues != []
      modifies this`nextReadIndex
      ensures Valid() && queues == old(queues)
      ensures nextReadIndex == Following(old(nextReadIndex), |queues|)
      ensures QueueContents(queues) == old(QueueContents(queues))
    {
      nextReadIndex := Following(nextReadIndex, |queues|);
    }

    /** The oldest event of the current queue goes into the caller's buffer, unless its sensor is
        unregistered, and leaves the queue. */
    method TakeEvent(data: array<Event>, read: nat, event: Event, ghost s: Scan) returns (read': nat)
      requires Valid() && nextReadIndex < |queues| && data !in Buffers(queues)
      requires QueueContents(queues) == s.queues && nextReadIndex == s.next
      requires s.queues[s.next] != [] && event == s.queues[s.next][0]
      requires Filled(data, read, s.out) && read < data.Length
      modifies queues, data
      ensures Valid() && queues == old(queues) && nextReadIndex == old(nextReadIndex)
      ensures QueueContents(queues) == s.Iterate(tables).queues
      ensures Filled(data, read', s.Iterate(tables).out)
    {
      CopyRemapped(data, read, event);
      if data[read].sensor == -1 {
        read' := read; // Dropped: the buffer slot is used again.
      } else {
        read' := read + 1;
      }
      assert Filled(data, read', s.Iterate(tables).out);
      DequeueCurrent(data);
    }

    /** One iteration: look at the queue at `nextReadIndex`, take its oldest event if there is one,
        and move on. `s` is the scan so far. */
    method VisitQueue(data: array<Event>, read: nat, empties: nat, ghost s: Scan)
      returns (read': nat, empties': nat, ghost s': Scan)
      requires Valid() && queues != [] && data !in Buffers(queues)
      requires QueueContents(queues) == s.queues && nextReadIndex == s.next && empties == s.empties
      requires Filled(data, read, s.out) && read < data.Length
      modifies this`nextReadIndex, queues, data
      ensures Valid() && queues == old(queues)
      ensures s' == s.Iterate(tables) && Filled(data, read', s'.out)
      ensures QueueContents(queues) == s'.queues && nextReadIndex == s'.next && empties' == s'.empties
    {
      s' := s.Iterate(tables);
      var event := queues[nextReadIndex].Peek();
      assert Backlog(queues[nextReadIndex]) == s.queues[s.next];
      if event.None? {
        read', empties' := read, empties + 1;
      } else {
        empties' := 0;
        read' := TakeEvent(data, read, event.value, s);
      }
      Advance();
    }

    /** The inner loop of poll(), run while holding the queue mutex. */
    method ScanQueues(data: array<Event>, maxReads: int) returns (eventsRead: nat, ghost s: Scan)
      requires Valid() && maxReads <= data.Length && data !in Buffers(queues)
      modifies this`nextReadIndex, queues, data
      ensures Valid() && queues == old(queues)
      ensures s == old(View(0, [])).Finish(tables, maxReads)
      ensures QueueContents(queues) == s.queues && nextReadIndex == s.next && Filled(data, eventsRead, s.out)
      ensures var available := TotalDeliverable(tables, old(QueueContents(queues)));
              maxReads >= 0 ==> eventsRead == if available < maxReads then available else maxReads
    {
      var empties: nat := 0;
      eventsRead, s := 0, View(0, []);
      ghost var goal := s.Finish(tables, maxReads);
      ScanCount(tables, s, maxReads);
      while empties < |queues| && eventsRead < maxReads
        invariant Valid() && queues == old(queues)
        invariant QueueContents(queues) == s.queues && nextReadIndex == s.next && empties == s.empties
        invariant Filled(data, eventsRead, s.out)
        invariant s.Valid() && s.Finish(tables, maxReads) == goal
        decreases TotalQueued(s.queues), |queues| - empties
      {
        OneMoreIteration(tables, s, maxReads);
        eventsRead, empties, s := VisitQueue(data, eventsRead, empties, s);
      }
    }
  }
}
