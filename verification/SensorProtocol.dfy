/** The concurrent event path of the sensor multi-HAL as a state machine: initialization, one writer
    thread per sub-HAL, and one poller. A step is a section run under the queue mutex, one iteration
    of the poller's scan (which holds the mutex throughout), one store of a driver into the region it
    was given (outside the mutex), or a wake-up. Every interleaving of the steps is a run. */
module SensorProtocol {
  import opened Common
  import opened HandleRegistry
  import opened EventQueue
  import opened PollScan

  /** Where a writer thread is. `stored` and `events` are what its driver has put into the region
      during the current call of its poll(). */
  datatype Writer =
    | NotStarted
    | Entering                                                        // about to lock the mutex
    | WaitingForSpace                                                 // in waitForSpace()
    | Polling(first: nat, length: nat, stored: map<nat, Event>)       // in the driver's poll()
    | Publishing(first: nat, events: seq<Event>)                      // about to lock again

  /** One sub-HAL's queue and writer. `published` and `consumed` are histories: the events the drivers
      handed over so far and the events the poller has taken out so far. */
  datatype Channel = Channel(ring: Ring<Event>, writer: Writer, published: seq<Event>, consumed: seq<Event>)

  /** Where the poller is. `backlog` is the number of deliverable events queued when the mutex was
      acquired last. */
  datatype Reader =
    | Idle
    | Locking(maxReads: nat)
    | Scanning(maxReads: nat, empties: nat, out: seq<Delivery>, backlog: nat)
    | Waiting(maxReads: nat)                                          // in pthread_cond_wait()
    | Reacquiring(maxReads: nat)                                      // woken, about to lock again

  datatype Owner = Free | Initializer | Poller

  datatype Phase = Unopened | Opening(started: nat) | Opened | Listing(listed: nat) | Ready

  /** `fulls` are the sensors of all modules in listing order; `returned` is everything poll() has
      returned so far. */
  datatype State = State(
    fulls: seq<FullHandle>,
    phase: Phase,
    owner: Owner,
    tables: Tables,
    channels: seq<Channel>,
    reader: Reader,
    waitingForData: bool,
    nextReadIndex: nat,
    returned: seq<Delivery>)

  datatype Step =
    | OpenLock | OpenModule | OpenDone
    | ListBegin | ListAssign | ListDone
    | WriterReserve(i: nat) | WriterBlock(i: nat) | WriterWake(i: nat) | WriterPublish(i: nat)
    | DriverStore(i: nat, k: nat, e: Event) | DriverReturn(i: nat, count: int)
    | PollCall(maxReads: nat) | PollLock | PollScan | PollWait | PollWake | PollReacquire | PollReturn

  ghost predicate Init(s: State) {
    && s.phase == Unopened && s.owner == Free && s.tables == NO_HANDLES
    && s.reader == Idle && !s.waitingForData && s.nextReadIndex == 0 && s.returned == []
    && forall i :: 0 <= i < |s.channels| ==>
         var c := s.channels[i];
         c.ring.Valid() && c.ring.size == 0 && c.writer == NotStarted && c.published == [] && c.consumed == []
  }

  ghost predicate WellFormed(s: State) {
    && (forall i :: 0 <= i < |s.channels| ==> s.channels[i].ring.Valid())
    && (s.nextReadIndex < |s.channels| || s.nextReadIndex == |s.channels| == 0)
  }

  predicate ScanContinues(s: State) {
    s.reader.Scanning? && s.reader.empties < |s.channels| && |s.reader.out| < s.reader.maxReads
  }

  /** The steps of one writer thread and its driver. */
  predicate IsChannelStep(step: Step) {
    || step.WriterReserve? || step.WriterBlock? || step.WriterWake? || step.WriterPublish?
    || step.DriverStore? || step.DriverReturn?
  }

  predicate LocksMutex(step: Step) {
    || step.OpenLock? || step.WriterReserve? || step.WriterBlock? || step.WriterPublish?
    || step.PollLock? || step.PollReacquire?
  }

  predicate ChannelEnabled(c: Channel, step: Step)
    requires IsChannelStep(step)
  {
    match step
    case WriterReserve(_) => c.writer == Entering && !c.ring.Full()
    case WriterBlock(_) => c.writer == Entering && c.ring.Full()
    case WriterWake(_) => c.writer == WaitingForSpace
    case WriterPublish(_) => c.writer.Publishing?
    case DriverStore(_, k, _) => c.writer.Polling? && k < c.writer.length
    case DriverReturn(_, count) =>
      // A driver that reports events has filled that many slots from the start of its region.
      && c.writer.Polling? && count <= c.writer.length
      && forall k :: 0 <= k < count ==> k in c.writer.stored
  }

  predicate Enabled(s: State, step: Step) {
    && (LocksMutex(step) ==> s.owner == Free)
    && match step
       case OpenLock => s.phase == Unopened
       case OpenModule => s.phase.Opening? && s.phase.started < |s.channels|
       case OpenDone => s.phase.Opening? && s.phase.started == |s.channels|
       case ListBegin => s.phase == Opened
       case ListAssign => s.phase.Listing? && s.phase.listed < |s.fulls|
       case ListDone => s.phase.Listing? && s.phase.listed == |s.fulls|
       case PollCall(maxReads) =>
         s.reader == Idle && maxReads > 0 && (s.phase == Opened || s.phase.Listing? || s.phase == Ready)
       case PollLock => s.reader.Locking?
       case PollScan => ScanContinues(s)
       case PollWait => s.reader.Scanning? && !ScanContinues(s) && s.reader.out == []
       case PollWake => s.reader.Waiting?
       case PollReacquire => s.reader.Reacquiring?
       case PollReturn => s.reader.Scanning? && !ScanContinues(s) && s.reader.out != []
       case _ => step.i < |s.channels| && ChannelEnabled(s.channels[step.i], step)
  }

  ghost function Backlogs(channels: seq<Channel>): (r: seq<seq<Event>>)
    requires forall i :: 0 <= i < |channels| ==> channels[i].ring.Valid()
    ensures |r| == |channels|
    ensures forall i :: 0 <= i < |channels| ==> r[i] == channels[i].ring.Readable()
  {
    seq(|channels|, i requires 0 <= i < |channels| => channels[i].ring.Readable())
  }

  /** Entering the scan with the mutex held. */
  ghost function StartScan(s: State, maxReads: nat): State
    requires WellFormed(s)
  {
    s.(owner := Poller, waitingForData := false,
       reader := Scanning(maxReads, 0, [], TotalDeliverable(s.tables, Backlogs(s.channels))))
  }

  /** The effect of a writer's or a driver's step on its own channel. */
  ghost function ApplyToChannel(c: Channel, step: Step): Channel
    requires c.ring.Valid() && IsChannelStep(step) && ChannelEnabled(c, step)
  {
    match step
    case WriterReserve(_) =>
      // The request is SENSOR_EVENT_QUEUE_CAPACITY, which is also the capacity.
      WritableRegion(c.ring, c.ring.Capacity());
      c.(writer := Polling(c.ring.FirstWritable(), c.ring.WritableLength(c.ring.Capacity()), map[]))
    case WriterBlock(_) => c.(writer := WaitingForSpace)
    case WriterWake(_) => c.(writer := Entering)
    case DriverStore(_, k, e) =>
      var slot := c.writer.first + k;
      c.(ring := if slot < |c.ring.data| then c.ring.Write(slot, e) else c.ring,
         writer := c.writer.(stored := c.writer.stored[k := e]))
    case DriverReturn(_, count) =>
      if count <= 0 then c.(writer := Entering)
      else
        var stored := c.writer.stored;
        c.(writer := Publishing(c.writer.first, seq(count, k requires 0 <= k < count => stored[k])))
    case WriterPublish(_) =>
      Channel(c.ring.MarkAsWritten(|c.writer.events|), Entering, c.published + c.writer.events, c.consumed)
  }

  /** The channel after the poller has taken its oldest event; dequeue() from a full queue wakes the
      writer. */
  ghost function TakeOldest(c: Channel): Channel
    requires c.ring.Valid() && c.ring.size > 0
  {
    c.(ring := c.ring.Dequeue(),
       consumed := c.consumed + [c.ring.data[c.ring.start]],
       writer := if c.ring.Full() && c.writer == WaitingForSpace then Entering else c.writer)
  }

  ghost function ScanOnce(s: State): State
    requires WellFormed(s) && ScanContinues(s)
  {
    var c := s.channels[s.nextReadIndex];
    var following := Following(s.nextReadIndex, |s.channels|);
    if c.ring.size == 0 then
      s.(nextReadIndex := following, reader := s.reader.(empties := s.reader.empties + 1))
    else
      var event := Remap(s.tables, s.nextReadIndex, c.ring.data[c.ring.start]);
      var out := if event.sensor == -1 then s.reader.out
                 else s.reader.out + [Delivery(s.nextReadIndex, event)];
      s.(nextReadIndex := following,
         channels := s.channels[s.nextReadIndex := TakeOldest(c)],
         reader := s.reader.(empties := 0, out := out))
  }

  ghost function Apply(s: State, step: Step): State
    requires WellFormed(s) && Enabled(s, step)
  {
    match step
    case OpenLock => s.(owner := Initializer, phase := Opening(0))
    case OpenModule =>
      var k := s.phase.started;
      s.(phase := Opening(k + 1), channels := s.channels[k := s.channels[k].(writer := Entering)])
    case OpenDone => s.(phase := Opened)
    case ListBegin => s.(phase := Listing(0))
    case ListAssign =>
      s.(phase := Listing(s.phase.listed + 1), tables := s.tables.Assign(s.fulls[s.phase.listed]))
    case ListDone => s.(phase := Ready, owner := Free)
    case PollCall(maxReads) => s.(reader := Locking(maxReads))
    case PollLock => StartScan(s, s.reader.maxReads).(waitingForData := s.waitingForData)
    case PollScan => ScanOnce(s)
    case PollWait => s.(reader := Waiting(s.reader.maxReads), waitingForData := true, owner := Free)
    case PollWake => s.(reader := Reacquiring(s.reader.maxReads))
    case PollReacquire => StartScan(s, s.reader.maxReads)
    case PollReturn => s.(reader := Idle, owner := Free, returned := s.returned + s.reader.out)
    case WriterPublish(i) =>
      // With waiting_for_data set, data_available_cond is broadcast.
      s.(channels := s.channels[i := ApplyToChannel(s.channels[i], step)],
         reader := if s.waitingForData && s.reader.Waiting? then Reacquiring(s.reader.maxReads) else s.reader)
    case _ => s.(channels := s.channels[step.i := ApplyToChannel(s.channels[step.i], step)])
  }

  /** A run is any sequence of steps, each enabled when it is taken. */
  ghost predicate Run(s: State, steps: seq<Step>, s': State)
    decreases |steps|
  {
    if steps == [] then s' == s
    else WellFormed(s) && Enabled(s, steps[0]) && Run(Apply(s, steps[0]), steps[1..], s')
  }

  ghost predicate Reachable(s: State) {
    exists s0: State, steps: seq<Step> :: Init(s0) && Run(s0, steps, s)
  }

  // ---------------------------------------------------------------------------------------------
  // The invariant
  // ---------------------------------------------------------------------------------------------

  /** What was published is what was consumed followed by what is readable; a region given to a driver
      is still reserved and holds what the driver stored; a writer waits only on a full queue. */
  ghost predicate ChannelInv(c: Channel) {
    && c.ring.Valid()
    && c.published == c.consumed + c.ring.Readable()
    && match c.writer
       case NotStarted => c.published == []
       case Entering => true
       case WaitingForSpace => c.ring.Full()
       case Polling(first, length, stored) =>
         && length > 0 && c.ring.Reserved(first, length)
         && forall k <- stored :: k < length && c.ring.data[first + k] == stored[k]
       case Publishing(first, events) =>
         && events != [] && c.ring.Reserved(first, |events|)
         && c.ring.data[first..first + |events|] == events
  }

  ghost predicate ChannelsInv(s: State) {
    forall i :: 0 <= i < |s.channels| ==> ChannelInv(s.channels[i])
  }

  /** Before the registry is complete the initializer holds the mutex, so nothing has happened. */
  ghost predicate PhaseInv(s: State) {
    match s.phase
    case Unopened =>
      s.owner == Free && s.reader == Idle && s.tables == NO_HANDLES && Untouched(s, 0)
    case Opening(started) =>
      && s.owner == Initializer && s.reader == Idle && s.tables == NO_HANDLES
      && started <= |s.channels| && Untouched(s, started)
    case Opened =>
      && s.owner == Initializer && (s.reader == Idle || s.reader.Locking?) && s.tables == NO_HANDLES
      && Untouched(s, |s.channels|)
    case Listing(listed) =>
      && s.owner == Initializer && (s.reader == Idle || s.reader.Locking?)
      && listed <= |s.fulls| && s.tables == AssignAll(s.fulls[..listed])
      && Untouched(s, |s.channels|)
    case Ready =>
      && s.owner != Initializer && s.tables == AssignAll(s.fulls)
      && forall i :: 0 <= i < |s.channels| ==> s.channels[i].writer != NotStarted
  }

  /** The first `started` writers are about to take the mutex for the first time, the others do not
      exist, and no event has moved. */
  ghost predicate Untouched(s: State, started: nat) {
    && s.returned == []
    && forall i :: 0 <= i < |s.channels| ==>
         && s.channels[i].writer == (if i < started then Entering else NotStarted)
         && s.channels[i].published == [] && s.channels[i].consumed == []
  }

  ghost function ScanView(s: State): Scan
    requires WellFormed(s) && s.reader.Scanning?
  {
    Scan(Backlogs(s.channels), s.nextReadIndex, s.reader.empties, s.reader.out)
  }

  ghost predicate ReaderInv(s: State)
    requires WellFormed(s)
  {
    && (s.owner == Poller <==> s.reader.Scanning?)
    && (s.waitingForData <==> s.reader.Waiting? || s.reader.Reacquiring?)
    && (s.reader.Waiting? ==> forall i :: 0 <= i < |s.channels| ==> s.channels[i].ring.size == 0)
    && (!s.reader.Idle? ==> s.reader.maxReads > 0)
    && (s.reader.Scanning? ==>
          && ScanView(s).Valid() && |s.reader.out| <= s.reader.maxReads
          && |s.reader.out| + TotalDeliverable(s.tables, Backlogs(s.channels)) == s.reader.backlog)
  }

  /** Everything passed to the framework, including what the running poll() has in its buffer. */
  function Passed(s: State): seq<Delivery> {
    s.returned + if s.reader.Scanning? then s.reader.out else []
  }

  /** For each module, what was passed on is the remapped image of what was consumed. */
  ghost predicate LogInv(s: State) {
    forall i: nat :: i < |s.channels| ==>
      From(Passed(s), i) == Upstream(s.tables, i, s.channels[i].consumed)
  }

  ghost predicate Inv(s: State) {
    WellFormed(s) && ChannelsInv(s) && PhaseInv(s) && ReaderInv(s) && LogInv(s)
  }

  lemma InitEstablishesInv(s: State)
    requires Init(s)
    ensures Inv(s)
  {
  }

  // ---------------------------------------------------------------------------------------------
  // Every step keeps the invariant
  // ---------------------------------------------------------------------------------------------

  lemma StoreKeeps(c: Channel, k: nat, e: Event)
    requires ChannelInv(c) && c.writer.Polling? && k < c.writer.length
    ensures var c' := ApplyToChannel(c, DriverStore(0, k, e));
            ChannelInv(c') && c'.ring.Readable() == c.ring.Readable()
  {
    WriteKeepsReadable(c.ring, c.writer.first, c.writer.length, k, e);
  }

  lemma ReturnKeeps(c: Channel, count: int)
    requires ChannelInv(c) && ChannelEnabled(c, DriverReturn(0, count))
    ensures ChannelInv(ApplyToChannel(c, DriverReturn(0, count)))
  {
    if count > 0 {
      var first := c.writer.first;
      var events := ApplyToChannel(c, DriverReturn(0, count)).writer.events;
      assert c.ring.data[first..first + count] == events;
    }
  }

  lemma PublishKeeps(c: Channel)
    requires ChannelInv(c) && c.writer.Publishing?
    ensures ChannelInv(ApplyToChannel(c, WriterPublish(0)))
  {
    PublishAppends(c.ring, c.writer.first, |c.writer.events|);
    Regroup(c.consumed, c.ring.Readable(), c.writer.events);
  }

  lemma ChannelStepKeeps(c: Channel, step: Step)
    requires ChannelInv(c) && IsChannelStep(step) && ChannelEnabled(c, step)
    ensures var c' := ApplyToChannel(c, step);
            && ChannelInv(c') && c'.consumed == c.consumed && c'.writer != NotStarted
            && (!step.WriterPublish? ==> c'.ring.Readable() == c.ring.Readable())
  {
    match step
    case WriterReserve(_) => WritableRegion(c.ring, c.ring.Capacity());
    case DriverStore(_, k, e) => StoreKeeps(c, k, e);
    case DriverReturn(_, count) => ReturnKeeps(c, count);
    case WriterPublish(_) => PublishKeeps(c);
    case WriterBlock(_) =>
    case WriterWake(_) =>
  }

  lemma TakeOldestKeeps(c: Channel)
    requires ChannelInv(c) && c.ring.size > 0
    ensures var c' := TakeOldest(c);
            && ChannelInv(c') && (c'.writer == NotStarted ==> c.writer == NotStarted)
            && c.ring.Readable() == [c.ring.data[c.ring.start]] + c'.ring.Readable()
            && c'.consumed == c.consumed + [c.ring.Readable()[0]]
  {
    DequeueIsTail(c.ring);
  }

  lemma InitStepKeepsInv(s: State, step: Step)
    requires Inv(s) && Enabled(s, step)
    requires step.OpenLock? || step.OpenModule? || step.OpenDone?
             || step.ListBegin? || step.ListAssign? || step.ListDone?
    ensures Inv(Apply(s, step))
  {
    match step
    case ListBegin => assert s.fulls[..0] == [];
    case ListAssign =>
      var n := s.phase.listed;
      assert s.fulls[..n + 1][..n] == s.fulls[..n];
    case ListDone => assert s.fulls[..|s.fulls|] == s.fulls;
    case _ =>
  }

  /** Writers and the poller's locked sections run only once the registry is complete. */
  lemma NeedsReady(s: State, step: Step)
    requires Inv(s) && Enabled(s, step)
    requires IsChannelStep(step) || (LocksMutex(step) && !step.OpenLock?) || s.reader.Scanning? || s.reader.Waiting?
             || s.reader.Reacquiring?
    requires !step.OpenModule? && !step.OpenDone? && !step.ListBegin? && !step.ListAssign? && !step.ListDone?
    ensures s.phase == Ready
  {
  }

  lemma OneChannelChanges(s: State, i: nat, c: Channel)
    requires Inv(s) && i < |s.channels| && ChannelInv(c) && c.consumed == s.channels[i].consumed
    ensures var s' := s.(channels := s.channels[i := c]);
            WellFormed(s') && ChannelsInv(s') && LogInv(s')
  {
  }

  lemma SameBacklogs(s: State, channels: seq<Channel>)
    requires Inv(s) && |channels| == |s.channels|
    requires forall i :: 0 <= i < |channels| ==>
               channels[i].ring.Valid() && channels[i].ring.Readable() == s.channels[i].ring.Readable()
    ensures ReaderInv(s.(channels := channels))
  {
    assert Backlogs(channels) == Backlogs(s.channels);
    forall i | 0 <= i < |channels|
      ensures channels[i].ring.size == s.channels[i].ring.size
    {
      assert |channels[i].ring.Readable()| == |s.channels[i].ring.Readable()|;
    }
  }

  lemma ChannelStepKeepsInv(s: State, step: Step)
    requires Inv(s) && IsChannelStep(step) && Enabled(s, step)
    requires !step.WriterPublish?
    ensures Inv(Apply(s, step))
  {
    NeedsReady(s, step);
    var c := ApplyToChannel(s.channels[step.i], step);
    ChannelStepKeeps(s.channels[step.i], step);
    OneChannelChanges(s, step.i, c);
    SameBacklogs(s, s.channels[step.i := c]);
  }

  lemma PublishKeepsInv(s: State, step: Step)
    requires Inv(s) && step.WriterPublish? && Enabled(s, step)
    ensures Inv(Apply(s, step))
  {
    NeedsReady(s, step);
    ChannelStepKeeps(s.channels[step.i], step);
    OneChannelChanges(s, step.i, ApplyToChannel(s.channels[step.i], step));
  }

  lemma StartScanKeepsInv(s: State, step: Step)
    requires Inv(s) && Enabled(s, step) && (step.PollLock? || step.PollReacquire?)
    ensures Inv(Apply(s, step))
  {
    NeedsReady(s, step);
    var s' := Apply(s, step);
    assert Passed(s') == Passed(s);
    assert ReaderInv(s') by {
      assert ScanView(s').Valid();
    }
  }

  lemma ScannedEmpty(s: State)
    requires Inv(s) && s.reader.Scanning? && !ScanContinues(s) && |s.reader.out| < s.reader.maxReads
    ensures forall i :: 0 <= i < |s.channels| ==> s.channels[i].ring.size == 0
  {
    forall i | 0 <= i < |s.channels|
      ensures s.channels[i].ring.size == 0
    {
      assert Behind(i, s.nextReadIndex, |s.channels|) <= s.reader.empties;
      assert Backlogs(s.channels)[i] == [];
    }
  }

  lemma ReaderStepKeepsInv(s: State, step: Step)
    requires Inv(s) && Enabled(s, step)
    requires step.PollCall? || step.PollWait? || step.PollWake? || step.PollReturn?
    ensures Inv(Apply(s, step))
  {
    var s' := Apply(s, step);
    assert s'.channels == s.channels;
    assert Passed(s') == Passed(s);
    if !step.PollCall? {
      NeedsReady(s, step);
    }
    if step.PollWait? {
      ScannedEmpty(s);
    }
  }

  /** The scan of the state machine is the scan of PollScan. */
  lemma ScanRefines(s: State)
    requires Inv(s) && ScanContinues(s)
    ensures var s' := Apply(s, PollScan);
            && WellFormed(s') && ChannelsInv(s')
            && ScanView(s') == ScanView(s).Iterate(s.tables)
  {
    var n := s.nextReadIndex;
    var c := s.channels[n];
    var s' := Apply(s, PollScan);
    assert c.ring.Readable() == Backlogs(s.channels)[n];
    if c.ring.size == 0 {
      assert c.ring.Readable() == [];
    } else {
      TakeOldestKeeps(c);
      assert Backlogs(s'.channels) == Backlogs(s.channels)[n := c.ring.Readable()[1..]];
    }
  }

  /** The poller's log of one module after it has taken an event from queue n. */
  lemma LogGrows(s: State, e: Event, i: nat)
    requires Inv(s) && s.reader.Scanning? && i < |s.channels| && s.nextReadIndex < |s.channels|
    ensures var n := s.nextReadIndex;
            var r := Remap(s.tables, n, e);
            var out := if r.sensor == -1 then s.reader.out else s.reader.out + [Delivery(n, r)];
            From(s.returned + out, i)
            == Upstream(s.tables, i, if i == n then s.channels[i].consumed + [e] else s.channels[i].consumed)
  {
    var n := s.nextReadIndex;
    var d := Delivery(n, Remap(s.tables, n, e));
    FromAppend(Passed(s), d, i);
    Regroup(s.returned, s.reader.out, [d]);
    if i == n {
      UpstreamConcat(s.tables, n, s.channels[i].consumed, [e]);
    }
  }

  lemma ScanKeepsLog(s: State)
    requires Inv(s) && ScanContinues(s)
    ensures LogInv(Apply(s, PollScan))
  {
    var c := s.channels[s.nextReadIndex];
    if c.ring.size > 0 {
      forall i: nat | i < |s.channels|
        ensures var s' := Apply(s, PollScan);
                From(Passed(s'), i) == Upstream(s'.tables, i, s'.channels[i].consumed)
      {
        LogGrows(s, c.ring.data[c.ring.start], i);
      }
    }
  }

  lemma ScanKeepsPhase(s: State)
    requires Inv(s) && ScanContinues(s)
    ensures PhaseInv(Apply(s, PollScan))
  {
    NeedsReady(s, PollScan);
    if s.channels[s.nextReadIndex].ring.size > 0 {
      TakeOldestKeeps(s.channels[s.nextReadIndex]);
    }
  }

  lemma ScanKeepsReader(s: State)
    requires Inv(s) && ScanContinues(s)
    ensures WellFormed(Apply(s, PollScan)) && ChannelsInv(Apply(s, PollScan)) && ReaderInv(Apply(s, PollScan))
  {
    var before, s' := ScanView(s), Apply(s, PollScan);
    ScanRefines(s);
    IterateKeepsValid(s.tables, before);
    IterateMeasures(s.tables, before);
    var after := before.Iterate(s.tables);
    assert ScanView(s') == after;
    assert Backlogs(s'.channels) == after.queues && s'.reader.out == after.out;
  }

  lemma PollScanKeepsInv(s: State)
    requires Inv(s) && ScanContinues(s)
    ensures Inv(Apply(s, PollScan))
  {
    ScanKeepsReader(s);
    ScanKeepsLog(s);
    ScanKeepsPhase(s);
  }

  lemma StepKeepsInv(s: State, step: Step)
    requires Inv(s) && Enabled(s, step)
    ensures Inv(Apply(s, step))
  {
    if IsChannelStep(step) {
      if step.WriterPublish? { PublishKeepsInv(s, step); } else { ChannelStepKeepsInv(s, step); }
    } else if step.PollScan? {
      PollScanKeepsInv(s);
    } else if step.OpenLock? || step.OpenModule? || step.OpenDone?
           || step.ListBegin? || step.ListAssign? || step.ListDone? {
      InitStepKeepsInv(s, step);
    } else if step.PollLock? || step.PollReacquire? {
      StartScanKeepsInv(s, step);
    } else {
      ReaderStepKeepsInv(s, step);
    }
  }

  lemma {:induction false} RunKeepsInv(s: State, steps: seq<Step>, s': State)
    requires Inv(s) && Run(s, steps, s')
    ensures Inv(s')
    decreases |steps|
  {
    if steps != [] {
      StepKeepsInv(s, steps[0]);
      RunKeepsInv(Apply(s, steps[0]), steps[1..], s');
    }
  }

  lemma ReachableInv(s: State)
    requires Reachable(s)
    ensures Inv(s)
  {
    var s0: State, steps: seq<Step> :| Init(s0) && Run(s0, steps, s);
    InitEstablishesInv(s0);
    RunKeepsInv(s0, steps, s);
  }

  // ---------------------------------------------------------------------------------------------
  // What was asked for and reported in a run
  // ---------------------------------------------------------------------------------------------

  /** What one driver has done so far, from the steps alone: what it has stored since its writer reserved a
      region last, and the events it has reported, in order. */
  datatype Driver = Driver(stored: map<nat, Event>, reported: seq<Event>)

  const NO_EVENT := Reading(-1, 0)

  /** The first `count` events stored; a driver that reports that many has stored them. */
  function FirstStored(stored: map<nat, Event>, count: int): seq<Event> {
    if count <= 0 then []
    else FirstStored(stored, count - 1) + [if count - 1 in stored then stored[count - 1] else NO_EVENT]
  }

  function DriverAfter(d: Driver, step: Step, i: nat): Driver {
    match step
    case WriterReserve(j) => if j == i then d.(stored := map[]) else d
    case DriverStore(j, k, e) => if j == i then d.(stored := d.stored[k := e]) else d
    case DriverReturn(j, count) =>
      if j == i then d.(reported := d.reported + FirstStored(d.stored, count)) else d
    case _ => d
  }

  function DriverAfterAll(d: Driver, steps: seq<Step>, i: nat): Driver
    decreases |steps|
  {
    if steps == [] then d else DriverAfterAll(DriverAfter(d, steps[0], i), steps[1..], i)
  }

  /** The events that the driver of channel i reported in a run. */
  function Reported(steps: seq<Step>, i: nat): seq<Event> {
    DriverAfterAll(Driver(map[], []), steps, i).reported
  }

  /** Events that the driver has reported and its writer has not published yet. */
  function Pending(w: Writer): seq<Event> {
    if w.Publishing? then w.events else []
  }

  /** What channel i knows of its driver. */
  ghost predicate Follows(c: Channel, d: Driver) {
    && c.published + Pending(c.writer) == d.reported
    && (c.writer.Polling? ==> c.writer.stored == d.stored)
  }

  lemma FirstStoredAre(stored: map<nat, Event>, count: nat)
    requires forall k :: 0 <= k < count ==> k in stored
    ensures FirstStored(stored, count) == seq(count, k requires 0 <= k < count => stored[k])
  {
    if count > 0 {
      FirstStoredAre(stored, count - 1);
    }
  }

  lemma ReturnFollows(c: Channel, d: Driver, count: int)
    requires Follows(c, d) && ChannelInv(c) && ChannelEnabled(c, DriverReturn(0, count))
    ensures Follows(ApplyToChannel(c, DriverReturn(0, count)),
                    d.(reported := d.reported + FirstStored(d.stored, count)))
  {
    if count > 0 {
      FirstStoredAre(d.stored, count);
    }
  }

  lemma ChannelStepFollows(c: Channel, d: Driver, step: Step, i: nat)
    requires Follows(c, d) && ChannelInv(c) && IsChannelStep(step) && ChannelEnabled(c, step) && step.i == i
    ensures Follows(ApplyToChannel(c, step), DriverAfter(d, step, i))
  {
    match step
    case DriverReturn(_, count) => ReturnFollows(c, d, count);
    case WriterPublish(_) => Regroup(c.published, c.writer.events, []);
    case _ =>
  }

  lemma ScanFollows(s: State, i: nat, d: Driver)
    requires Inv(s) && ScanContinues(s) && i < |s.channels| && Follows(s.channels[i], d)
    ensures |Apply(s, PollScan).channels| == |s.channels| && Follows(Apply(s, PollScan).channels[i], d)
  {
  }

  /** Steps of the poller, of the initializer and of other channels. */
  lemma OtherStepFollows(s: State, step: Step, i: nat, d: Driver)
    requires Inv(s) && Enabled(s, step) && i < |s.channels| && Follows(s.channels[i], d)
    requires step != PollScan && (IsChannelStep(step) ==> step.i != i)
    ensures |Apply(s, step).channels| == |s.channels| && Follows(Apply(s, step).channels[i], d)
  {
    assert step != OpenModule ==> Apply(s, step).channels[i] == s.channels[i];
  }

  lemma StepFollows(s: State, step: Step, i: nat, d: Driver)
    requires Inv(s) && Enabled(s, step) && i < |s.channels| && Follows(s.channels[i], d)
    ensures |Apply(s, step).channels| == |s.channels|
    ensures Follows(Apply(s, step).channels[i], DriverAfter(d, step, i))
  {
    if IsChannelStep(step) && step.i == i {
      ChannelStepFollows(s.channels[i], d, step, i);
      assert Apply(s, step).channels == s.channels[i := ApplyToChannel(s.channels[i], step)];
    } else if step.PollScan? {
      ScanFollows(s, i, d);
    } else {
      OtherStepFollows(s, step, i, d);
    }
  }

  lemma {:induction false} RunFollows(s: State, steps: seq<Step>, s': State, i: nat, d: Driver)
    requires Inv(s) && Run(s, steps, s') && i < |s.channels| && Follows(s.channels[i], d)
    ensures |s'.channels| == |s.channels|
    ensures Follows(s'.channels[i], DriverAfterAll(d, steps, i))
    decreases |steps|
  {
    if steps != [] {
      StepKeepsInv(s, steps[0]);
      StepFollows(s, steps[0], i, d);
      RunFollows(Apply(s, steps[0]), steps[1..], s', i, DriverAfter(d, steps[0], i));
    }
  }

  /** Exactly what a driver reports gets published: every event, once, in order, the last call's report
      following once its writer has the mutex. */
  lemma ReportsArePublished(s0: State, steps: seq<Step>, s: State, i: nat)
    requires Init(s0) && Run(s0, steps, s) && i < |s0.channels|
    ensures |s.channels| == |s0.channels|
    ensures s.channels[i].published + Pending(s.channels[i].writer) == Reported(steps, i)
  {
    InitEstablishesInv(s0);
    RunFollows(s0, steps, s, i, Driver(map[], []));
  }

  // ---------------------------------------------------------------------------------------------
  // What holds of every reachable state
  // ---------------------------------------------------------------------------------------------

  /** Each ring is a FIFO under every interleaving: the events taken out so far are a prefix of the
      events its driver reported, and the rest is what is readable and what is about to be published;
      while a driver is filling its region, or its writer waits to publish it, the region begins right
      behind the readable records, no slot of it is readable, and it holds what the driver stored. */
  lemma RingIsFifo(s0: State, steps: seq<Step>, s: State, i: nat)
    requires Init(s0) && Run(s0, steps, s) && i < |s0.channels|
    ensures i < |s.channels|
    ensures var c := s.channels[i];
            && c.ring.Valid()
            && c.published == c.consumed + c.ring.Readable()
            && c.published + Pending(c.writer) == Reported(steps, i)
            && (c.writer.Polling? ==>
                  && c.writer.length > 0 && c.writer.first == c.ring.FirstWritable()
                  && c.writer.first + c.writer.length <= c.ring.Capacity()
                  && (forall k: nat :: k < c.ring.size ==>
                        !(c.writer.first <= c.ring.Slot(k) < c.writer.first + c.writer.length))
                  && forall k <- c.writer.stored ::
                       k < c.writer.length && c.ring.data[c.writer.first + k] == c.writer.stored[k])
            && (c.writer.Publishing? ==>
                  && c.writer.first == c.ring.FirstWritable()
                  && c.writer.first + |c.writer.events| <= c.ring.Capacity()
                  && c.ring.data[c.writer.first..c.writer.first + |c.writer.events|] == c.writer.events)
  {
    InitEstablishesInv(s0);
    RunKeepsInv(s0, steps, s);
    ReportsArePublished(s0, steps, s, i);
    RegionIsUnread(s, i);
  }

  lemma RegionIsUnread(s: State, i: nat)
    requires Inv(s) && i < |s.channels|
    ensures var c := s.channels[i];
            c.writer.Polling? ==>
              forall k: nat :: k < c.ring.size ==>
                !(c.writer.first <= c.ring.Slot(k) < c.writer.first + c.writer.length)
  {
    var c := s.channels[i];
    if c.writer.Polling? {
      forall k: nat | k < c.ring.size
        ensures !(c.writer.first <= c.ring.Slot(k) < c.writer.first + c.writer.length)
      {
        ReservedIsNotReadable(c.ring, c.writer.first, c.writer.length, k);
      }
    }
  }

  /** While the registry is incomplete nothing has moved, so it may be taken as complete throughout. */
  lemma RegistryIsEnough(s: State, i: nat)
    requires Inv(s) && i < |s.channels|
    ensures From(Passed(s), i) == Upstream(AssignAll(s.fulls), i, s.channels[i].consumed)
  {
    if s.phase != Ready {
      assert s.channels[i].consumed == [] && Passed(s) == [];
    }
  }

  lemma ReturnedIsPrefix(s: State, i: nat, registry: Tables)
    requires Inv(s) && i < |s.channels|
    requires From(Passed(s), i) == Upstream(registry, i, s.channels[i].consumed)
    ensures From(s.returned, i) <= Upstream(registry, i, s.channels[i].published)
  {
    var c := s.channels[i];
    var pending := if s.reader.Scanning? then s.reader.out else [];
    UpstreamConcat(registry, i, c.consumed, c.ring.Readable());
    FromConcat(s.returned, pending, i);
    Regroup(From(s.returned, i), From(pending, i), Upstream(registry, i, c.ring.Readable()));
  }

  /** Conservation and order in a state: what poll() has passed on from a module is, in order, the remapped
      image under the complete registry of what was consumed, which is a prefix of what was published; and
      published = delivered + dropped + still queued. */
  lemma PublishedIsConserved(s: State, i: nat)
    requires Inv(s) && i < |s.channels|
    ensures var c := s.channels[i];
            var registry := AssignAll(s.fulls);
            && c.consumed <= c.published
            && From(Passed(s), i) == Upstream(registry, i, c.consumed)
            && |c.published| == |From(Passed(s), i)| + Dropped(registry, i, c.consumed) + c.ring.size
            && From(s.returned, i) <= Upstream(registry, i, c.published)
  {
    var registry := AssignAll(s.fulls);
    DeliveredOrDropped(registry, i, s.channels[i].consumed);
    QueuedArePublished(s, i);
    RegistryIsEnough(s, i);
    ReturnedIsPrefix(s, i, registry);
  }

  /** Conservation and order, end to end and in every run: the events that a module's driver reported are
      those consumed, those still queued and those its writer is about to publish, in this order; what
      poll() has passed on is the remapped image of those consumed, in order and under the complete
      registry; so reported = delivered + dropped + queued + pending, and what poll() has returned is a
      prefix of the image of what was reported. */
  lemma EventsAreConserved(s0: State, steps: seq<Step>, s: State, i: nat)
    requires Init(s0) && Run(s0, steps, s) && i < |s0.channels|
    ensures i < |s.channels| && s.channels[i].ring.Valid()
    ensures var c := s.channels[i];
            var registry := AssignAll(s.fulls);
            && c.consumed + c.ring.Readable() + Pending(c.writer) == Reported(steps, i)
            && c.consumed <= c.published
            && From(Passed(s), i) == Upstream(registry, i, c.consumed)
            && |Reported(steps, i)|
               == |From(Passed(s), i)| + Dropped(registry, i, c.consumed) + c.ring.size + |Pending(c.writer)|
            && From(s.returned, i) <= Upstream(registry, i, Reported(steps, i))
  {
    var registry := AssignAll(s.fulls);
    InitEstablishesInv(s0);
    RunKeepsInv(s0, steps, s);
    ReportsArePublished(s0, steps, s, i);
    PublishedIsConserved(s, i);
    UpstreamConcat(registry, i, s.channels[i].published, Pending(s.channels[i].writer));
  }

  /** Whoever has got past the mutex sees the complete registry. */
  lemma TrafficSeesRegistry(s: State, i: nat)
    requires Reachable(s) && i < |s.channels|
    requires s.owner == Poller || s.returned != [] || s.channels[i].published != []
             || (s.channels[i].writer != NotStarted && s.channels[i].writer != Entering)
    ensures s.phase == Ready && s.tables == AssignAll(s.fulls)
  {
    ReachableInv(s);
  }

  /** No wake-up is lost: a poller still blocked finds every queue empty and its flag set, so the next
      publication wakes it; a writer still blocked has a full queue, so the next dequeue from it wakes
      it. The two are never blocked on each other. */
  lemma NoLostWakeup(s: State, i: nat)
    requires Reachable(s) && i < |s.channels|
    ensures s.reader.Waiting? ==> s.waitingForData && s.channels[i].ring.size == 0
    ensures s.channels[i].writer == WaitingForSpace ==> s.channels[i].ring.Full() && s.channels[i].ring.size > 0
    ensures !(s.reader.Waiting? && s.channels[i].writer == WaitingForSpace)
    ensures s.waitingForData <==> s.reader.Waiting? || s.reader.Reacquiring?
  {
    ReachableInv(s);
  }

  /** The steps the HAL takes on its own: not the framework's calls to open the device, to list the
      sensors, and to poll; not a driver's action; not a spurious wake-up. */
  predicate Internal(step: Step) {
    || step.OpenModule? || step.OpenDone? || step.ListAssign? || step.ListDone?
    || step.WriterReserve? || step.WriterBlock? || step.WriterPublish?
    || step.PollLock? || step.PollScan? || step.PollWait? || step.PollReacquire? || step.PollReturn?
  }

  ghost predicate Quiescent(s: State) {
    forall step :: Internal(step) ==> !Enabled(s, step)
  }

  lemma ReaderCanStep(s: State) returns (step: Step)
    requires s.owner == Poller <==> s.reader.Scanning?
    requires s.owner != Initializer && !s.reader.Idle? && !s.reader.Waiting?
    ensures Internal(step) && Enabled(s, step)
  {
    match s.reader
    case Scanning(_, _, out, _) =>
      return if ScanContinues(s) then PollScan else if out == [] then PollWait else PollReturn;
    case Locking(_) => return PollLock;
    case Reacquiring(_) => return PollReacquire;
  }

  lemma QuiescentReader(s: State)
    requires s.owner == Poller <==> s.reader.Scanning?
    requires s.owner != Initializer && Quiescent(s)
    ensures s.owner == Free && (s.reader == Idle || s.reader.Waiting?)
  {
    if !s.reader.Idle? && !s.reader.Waiting? {
      var _ := ReaderCanStep(s);
    }
  }

  lemma QuiescentWriter(s: State, i: nat)
    requires Inv(s) && s.phase == Ready && Quiescent(s) && i < |s.channels|
    ensures s.channels[i].writer.Polling? || (s.channels[i].writer == WaitingForSpace && s.reader == Idle)
  {
    QuiescentReader(s);
    assert !Enabled(s, WriterReserve(i)) && !Enabled(s, WriterBlock(i)) && !Enabled(s, WriterPublish(i));
  }

  /** What the HAL may wait for: to be opened; once opened, the listing of the sensors, with the mutex
      held; and after that the framework's call of poll(), or the drivers: the poller has not been called,
      or waits with every writer inside its driver's poll(), and every writer is inside its driver's
      poll() or waits for space and the poller to be called. */
  ghost predicate WaitsForEnvironment(s: State) {
    match s.phase
    case Unopened => true
    case Opening(_) => false
    case Opened => true
    case Listing(_) => false
    case Ready =>
      && (s.reader == Idle || s.reader.Waiting?)
      && forall i: nat :: i < |s.channels| ==>
           s.channels[i].writer.Polling? || (s.channels[i].writer == WaitingForSpace && s.reader == Idle)
  }

  lemma InitializerCanStep(s: State)
    requires Inv(s) && (s.phase.Opening? || s.phase.Listing?)
    ensures !Quiescent(s)
  {
    var step :=
      if s.phase.Opening? then (if s.phase.started < |s.channels| then OpenModule else OpenDone)
      else if s.phase.listed < |s.fulls| then ListAssign else ListDone;
    assert Internal(step) && Enabled(s, step);
  }

  lemma NothingRunsYet(s: State)
    requires Inv(s) && (s.phase == Unopened || s.phase == Opened)
    ensures Quiescent(s)
  {
    forall step | Internal(step)
      ensures !Enabled(s, step)
    {
      if step.WriterReserve? || step.WriterBlock? || step.WriterPublish? {
        assert step.i < |s.channels| ==>
          s.channels[step.i].writer == NotStarted || s.channels[step.i].writer == Entering;
      }
    }
  }

  lemma StuckState(s: State)
    requires Inv(s)
    ensures Quiescent(s) <==> WaitsForEnvironment(s)
  {
    match s.phase
    case Opening(_) => InitializerCanStep(s);
    case Listing(_) => InitializerCanStep(s);
    case Ready =>
      if Quiescent(s) {
        QuiescentReader(s);
        forall i: nat | i < |s.channels|
          ensures s.channels[i].writer.Polling? || (s.channels[i].writer == WaitingForSpace && s.reader == Idle)
        {
          QuiescentWriter(s, i);
        }
      }
    case _ => NothingRunsYet(s);
  }

  /** No deadlock, from before the device is opened on: the HAL can always take a step, except exactly when
      it waits for its environment. */
  lemma StuckOnlyOnEnvironment(s: State)
    requires Reachable(s)
    ensures Quiescent(s) <==> WaitsForEnvironment(s)
  {
    ReachableInv(s);
    StuckState(s);
  }

  /** What the framework asked for in its last call of poll(), from the steps alone. */
  function AskedFor(maxReads: nat, steps: seq<Step>): nat
    decreases |steps|
  {
    if steps == [] then maxReads
    else AskedFor(if steps[0].PollCall? then steps[0].maxReads else maxReads, steps[1..])
  }

  lemma StepKeepsAsked(s: State, step: Step, maxReads: nat)
    requires WellFormed(s) && Enabled(s, step) && (!s.reader.Idle? ==> s.reader.maxReads == maxReads)
    ensures var s', asked := Apply(s, step), if step.PollCall? then step.maxReads else maxReads;
            !s'.reader.Idle? ==> s'.reader.maxReads == asked
  {
  }

  lemma {:induction false} RunKeepsAsked(s: State, steps: seq<Step>, s': State, maxReads: nat)
    requires Run(s, steps, s') && (!s.reader.Idle? ==> s.reader.maxReads == maxReads)
    ensures !s'.reader.Idle? ==> s'.reader.maxReads == AskedFor(maxReads, steps)
    decreases |steps|
  {
    if steps != [] {
      StepKeepsAsked(s, steps[0], maxReads);
      RunKeepsAsked(Apply(s, steps[0]), steps[1..], s', if steps[0].PollCall? then steps[0].maxReads else maxReads);
    }
  }

  /** poll() returns the number of events asked for or of the deliverable ones that were queued when
      it acquired the mutex last, whichever is less; it goes to sleep only with every queue empty. */
  lemma PollIsExact(s0: State, steps: seq<Step>, s: State)
    requires Init(s0) && Run(s0, steps, s) && s.reader.Scanning? && !ScanContinues(s)
    ensures var asked := AskedFor(0, steps);
            |s.reader.out| == if s.reader.backlog < asked then s.reader.backlog else asked
    ensures Enabled(s, PollWait) ==>
              s.reader.backlog == 0 && forall i :: 0 <= i < |s.channels| ==> s.channels[i].ring.size == 0
  {
    InitEstablishesInv(s0);
    RunKeepsInv(s0, steps, s);
    RunKeepsAsked(s0, steps, s, 0);
    ScanIsDone(s);
  }

  lemma ScanIsDone(s: State)
    requires Inv(s) && s.reader.Scanning? && !ScanContinues(s)
    ensures var n := s.reader.maxReads;
            |s.reader.out| == if s.reader.backlog < n then s.reader.backlog else n
    ensures |s.reader.out| < s.reader.maxReads ==>
              forall i :: 0 <= i < |s.channels| ==> s.channels[i].ring.size == 0
  {
    if |s.reader.out| < s.reader.maxReads {
      ScannedEmpty(s);
      forall i | 0 <= i < |s.channels|
        ensures Backlogs(s.channels)[i] == []
      {
        assert |s.channels[i].ring.Readable()| == 0;
      }
      TotalsOfEmpty(s.tables, Backlogs(s.channels));
    }
  }

  /** The backlog is what can be delivered at the moment the mutex is acquired, and nothing is in the buffer
      yet. */
  lemma BacklogIsQueued(s: State, step: Step)
    requires WellFormed(s) && Enabled(s, step) && (step.PollLock? || step.PollReacquire?)
    ensures var s' := Apply(s, step);
            && s'.reader.Scanning? && s'.reader.out == [] && s'.owner == Poller
            && s'.reader.backlog == TotalDeliverable(s.tables, Backlogs(s.channels))
            && s'.nextReadIndex == s.nextReadIndex && s'.channels == s.channels
  {
  }

  /** The region a driver is given is the longest contiguous one there is, and the driver's return ends its
      hold on it: with events, its writer goes on to publish; without, it starts over. */
  lemma RegionIsLongest(s: State, i: nat, count: int)
    requires WellFormed(s) && i < |s.channels|
    ensures Enabled(s, WriterReserve(i)) ==>
              var r, w := s.channels[i].ring, Apply(s, WriterReserve(i)).channels[i].writer;
              && w.Polling? && w.length > 0 && r.Reserved(w.first, w.length)
              && forall length: nat :: r.Reserved(w.first, length) ==> length <= w.length
    ensures Enabled(s, DriverReturn(i, count)) ==>
              var w := Apply(s, DriverReturn(i, count)).channels[i].writer;
              if count > 0 then w.Publishing? && |w.events| == count else w == Entering
  {
    if Enabled(s, WriterReserve(i)) {
      WritableRegion(s.channels[i].ring, s.channels[i].ring.Capacity());
    }
  }

  // ---------------------------------------------------------------------------------------------
  // What holds of every run
  // ---------------------------------------------------------------------------------------------

  /** The handoff of the mutex: in a run from the start, every lock taken by a writer or by poll() comes
      after the end of the sensor listing, and by then the registry is complete. */
  lemma {:induction false} RegistryBeforeTraffic(s: State, steps: seq<Step>, s': State, k: nat)
    requires Inv(s) && s.phase != Ready && Run(s, steps, s') && k < |steps|
    requires LocksMutex(steps[k]) && !steps[k].OpenLock?
    ensures exists j :: 0 <= j < k && steps[j] == ListDone
    decreases |steps|
  {
    var next := Apply(s, steps[0]);
    StepKeepsInv(s, steps[0]);
    if steps[0] == ListDone {
      assert k > 0;
    } else {
      assert next.phase != Ready;
      RegistryBeforeTraffic(next, steps[1..], s', k - 1);
      var j :| 0 <= j < k - 1 && steps[1..][j] == ListDone;
      assert steps[j + 1] == ListDone;
    }
  }

  function Scans(steps: seq<Step>): nat {
    if steps == [] then 0 else (if steps[0] == PollScan then 1 else 0) + Scans(steps[1..])
  }

  /** An upper bound on the scan iterations until the p-th event of channel i is consumed. */
  function Remaining(s: State, i: nat, p: nat): int
    requires i < |s.channels|
  {
    (p - |s.channels[i].consumed|) * |s.channels| + Ahead(i, s.nextReadIndex, |s.channels|) + 1
  }

  lemma OtherStepsKeepPosition(s: State, step: Step, i: nat)
    requires WellFormed(s) && Enabled(s, step) && step != PollScan && i < |s.channels|
    ensures var s' := Apply(s, step);
            && |s'.channels| == |s.channels| && s'.nextReadIndex == s.nextReadIndex
            && s'.channels[i].consumed == s.channels[i].consumed
            && s.channels[i].published <= s'.channels[i].published
  {
  }

  lemma ScanMoves(s: State, i: nat)
    requires WellFormed(s) && ScanContinues(s) && i < |s.channels|
    ensures var s' := Apply(s, PollScan);
            && |s'.channels| == |s.channels|
            && s'.nextReadIndex == Following(s.nextReadIndex, |s.channels|)
            && s'.channels[i].published == s.channels[i].published
            && |s'.channels[i].consumed| == |s.channels[i].consumed|
                 + if i == s.nextReadIndex && s.channels[i].ring.size > 0 then 1 else 0
  {
  }

  lemma OneRoundLess(left: int, n: int)
    ensures (left - 1) * n == left * n - n
  {
  }

  lemma ScanAdvances(s: State, i: nat, p: nat)
    requires Inv(s) && ScanContinues(s) && i < |s.channels|
    requires |s.channels[i].consumed| <= p < |s.channels[i].published|
    ensures var s' := Apply(s, PollScan);
            && |s'.channels| == |s.channels|
            && s'.channels[i].published == s.channels[i].published
            && (|s'.channels[i].consumed| > p || Remaining(s', i, p) == Remaining(s, i, p) - 1)
  {
    ScanMoves(s, i);
    if i == s.nextReadIndex {
      QueuedArePublished(s, i);
      OneRoundLess(p - |s.channels[i].consumed|, |s.channels|);
    }
  }

  lemma OtherAdvances(s: State, step: Step, i: nat, p: nat)
    requires Inv(s) && Enabled(s, step) && step != PollScan && i < |s.channels| && p < |s.channels[i].published|
    ensures var s' := Apply(s, step);
            && |s'.channels| == |s.channels| && p < |s'.channels[i].published|
            && s'.channels[i].consumed == s.channels[i].consumed
            && Remaining(s', i, p) == Remaining(s, i, p)
  {
    OtherStepsKeepPosition(s, step, i);
  }

  lemma AnyStepAdvances(s: State, step: Step, i: nat, p: nat)
    requires Inv(s) && Enabled(s, step) && i < |s.channels| && p < |s.channels[i].published|
    ensures var s' := Apply(s, step);
            && |s'.channels| == |s.channels| && p < |s'.channels[i].published|
            && (|s.channels[i].consumed| > p ==> |s'.channels[i].consumed| > p)
            && (|s'.channels[i].consumed| <= p ==>
                  Remaining(s', i, p) == Remaining(s, i, p) - if step == PollScan then 1 else 0)
  {
    if step != PollScan {
      OtherAdvances(s, step, i, p);
    } else if |s.channels[i].consumed| <= p {
      ScanAdvances(s, i, p);
    }
  }

  lemma RemainingIsPositive(s: State, i: nat, p: nat)
    requires i < |s.channels| && s.nextReadIndex < |s.channels| && |s.channels[i].consumed| <= p
    ensures Remaining(s, i, p) > 0
  {
    ProductNotNegative(p - |s.channels[i].consumed|, |s.channels|);
  }

  lemma ProductNotNegative(a: nat, b: nat)
    ensures a * b >= 0
  {
  }

  /** Round-robin bounded waiting, counted over any number of poll() calls: the p-th published event of
      a queue is consumed once there have been as many scan iterations as `Remaining` says, whatever
      else happens in between. */
  lemma {:induction false} BoundedWaiting(s: State, steps: seq<Step>, s': State, i: nat, p: nat)
    requires Inv(s) && Run(s, steps, s') && i < |s.channels|
    requires p < |s.channels[i].published|
    requires |s.channels[i].consumed| <= p ==> Remaining(s, i, p) <= Scans(steps)
    ensures |s'.channels| == |s.channels| && |s'.channels[i].consumed| > p
    decreases |steps|
  {
    if |s.channels[i].consumed| <= p {
      RemainingIsPositive(s, i, p);
    }
    if steps != [] {
      StepKeepsInv(s, steps[0]);
      AnyStepAdvances(s, steps[0], i, p);
      BoundedWaiting(Apply(s, steps[0]), steps[1..], s', i, p);
    }
  }

  /** So an event with d events ahead of it in its queue is consumed within (d+1) * (number of queues)
      scan iterations. */
  lemma EventWithDAheadIsServed(s: State, steps: seq<Step>, s': State, i: nat, d: nat)
    requires Reachable(s) && Run(s, steps, s') && i < |s.channels| && d < s.channels[i].ring.size
    requires Scans(steps) >= (d + 1) * |s.channels|
    ensures |s'.channels| == |s.channels| && |s'.channels[i].consumed| > |s.channels[i].consumed| + d
  {
    ReachableInv(s);
    RoundsRemaining(s, i, d, Scans(steps));
    ServedWithinBudget(s, steps, s', i, d);
  }

  lemma ServedWithinBudget(s: State, steps: seq<Step>, s': State, i: nat, d: nat)
    requires Inv(s) && Run(s, steps, s') && i < |s.channels| && d < s.channels[i].ring.size
    requires Remaining(s, i, |s.channels[i].consumed| + d) <= Scans(steps)
    ensures |s'.channels| == |s.channels| && |s'.channels[i].consumed| > |s.channels[i].consumed| + d
  {
    QueuedArePublished(s, i);
    BoundedWaiting(s, steps, s', i, |s.channels[i].consumed| + d);
  }

  lemma QueuedArePublished(s: State, i: nat)
    requires Inv(s) && i < |s.channels|
    ensures |s.channels[i].published| == |s.channels[i].consumed| + s.channels[i].ring.size
  {
    assert |s.channels[i].ring.Readable()| == s.channels[i].ring.size;
  }

  lemma RoundsRemaining(s: State, i: nat, d: nat, budget: nat)
    requires i < |s.channels| && s.nextReadIndex < |s.channels| && budget >= (d + 1) * |s.channels|
    ensures Remaining(s, i, |s.channels[i].consumed| + d) <= budget
  {
    var n := |s.channels|;
    assert (d + 1) * n == d * n + n;
    assert Ahead(i, s.nextReadIndex, n) + 1 <= n;
  }
}
