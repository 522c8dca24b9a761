/** The event path of the sensor multi-HAL does not run forever on its own: left alone by the framework
    and the drivers it comes to rest, and then waits for one of them. */
module SensorProgress {
  import opened Common
  import opened HandleRegistry
  import opened EventQueue
  import opened PollScan
  import opened SensorProtocol

  function SumOf(weight: Channel -> nat, channels: seq<Channel>): nat {
    if channels == [] then 0
    else SumOf(weight, channels[..|channels| - 1]) + weight(channels[|channels| - 1])
  }

  lemma {:induction false} SumUpdate(weight: Channel -> nat, channels: seq<Channel>, i: nat, c: Channel)
    requires i < |channels|
    ensures SumOf(weight, channels[i := c]) == SumOf(weight, channels) - weight(channels[i]) + weight(c)
  {
    var n, updated := |channels| - 1, channels[i := c];
    if i < n {
      SumUpdate(weight, channels[..n], i, c);
      assert updated[..n] == channels[..n][i := c];
    } else {
      assert updated[..n] == channels[..n];
    }
  }

  function IsPublishing(c: Channel): nat {
    if c.writer.Publishing? then 1 else 0
  }

  function Queued(c: Channel): nat {
    c.ring.size
  }

  function IsEntering(c: Channel): nat {
    if c.writer == Entering then 1 else 0
  }

  /** What is left to do, in the order in which it counts: initialization; reports to publish; events to
      take out; steps of the poller before it sleeps or returns; writers about to reserve a region. */
  datatype Measure = Measure(phase: int, publishing: nat, queued: nat, reader: int, entering: nat)

  ghost predicate Lower(a: Measure, b: Measure) {
    || a.phase < b.phase
    || (a.phase == b.phase && a.publishing < b.publishing)
    || (a.phase == b.phase && a.publishing == b.publishing && a.queued < b.queued)
    || (a.phase == b.phase && a.publishing == b.publishing && a.queued == b.queued && a.reader < b.reader)
    || (a.phase == b.phase && a.publishing == b.publishing && a.queued == b.queued && a.reader == b.reader
        && a.entering < b.entering)
  }

  function PhaseLeft(s: State): int {
    match s.phase
    case Unopened => |s.channels| + |s.fulls| + 4
    case Opening(started) => |s.channels| - started + |s.fulls| + 3
    case Opened => |s.fulls| + 2
    case Listing(listed) => |s.fulls| - listed + 1
    case Ready => 0
  }

  function ReaderLeft(s: State): int {
    match s.reader
    case Idle => 0
    case Waiting(_) => 0
    case Locking(_) => |s.channels| + 2
    case Reacquiring(_) => |s.channels| + 2
    case Scanning(_, empties, _, _) => |s.channels| + 1 - empties
  }

  function Left(s: State): Measure {
    Measure(PhaseLeft(s), SumOf(IsPublishing, s.channels), SumOf(Queued, s.channels), ReaderLeft(s),
            SumOf(IsEntering, s.channels))
  }

  lemma LeftIsNatural(s: State)
    requires Inv(s)
    ensures Left(s).phase >= 0 && Left(s).reader >= 0
  {
    if s.reader.Scanning? {
      assert ScanView(s).Valid();
    }
  }

  lemma InitializerLowers(s: State, step: Step)
    requires Inv(s) && Enabled(s, step)
    requires step.OpenModule? || step.OpenDone? || step.ListAssign? || step.ListDone?
    ensures PhaseLeft(Apply(s, step)) < PhaseLeft(s)
  {
  }

  lemma WriterLowers(s: State, step: Step)
    requires Inv(s) && Enabled(s, step) && (step.WriterReserve? || step.WriterBlock?)
    ensures Lower(Left(Apply(s, step)), Left(s))
  {
    var c := ApplyToChannel(s.channels[step.i], step);
    assert Apply(s, step).channels == s.channels[step.i := c];
    SumUpdate(IsPublishing, s.channels, step.i, c);
    SumUpdate(Queued, s.channels, step.i, c);
    SumUpdate(IsEntering, s.channels, step.i, c);
  }

  lemma PublishLowers(s: State, step: Step)
    requires Inv(s) && Enabled(s, step) && step.WriterPublish?
    ensures Lower(Left(Apply(s, step)), Left(s))
  {
    var c := ApplyToChannel(s.channels[step.i], step);
    assert Apply(s, step).channels == s.channels[step.i := c];
    SumUpdate(IsPublishing, s.channels, step.i, c);
  }

  lemma TakingLowers(s: State)
    requires Inv(s) && ScanContinues(s) && s.channels[s.nextReadIndex].ring.size > 0
    ensures Lower(Left(Apply(s, PollScan)), Left(s))
  {
    var n := s.nextReadIndex;
    var c := TakeOldest(s.channels[n]);
    assert Apply(s, PollScan).channels == s.channels[n := c];
    SumUpdate(IsPublishing, s.channels, n, c);
    SumUpdate(Queued, s.channels, n, c);
  }

  lemma ScanLowers(s: State)
    requires Inv(s) && ScanContinues(s)
    ensures Lower(Left(Apply(s, PollScan)), Left(s))
  {
    if s.channels[s.nextReadIndex].ring.size > 0 {
      TakingLowers(s);
    } else {
      assert Apply(s, PollScan).channels == s.channels;
    }
  }

  lemma ReaderLowers(s: State, step: Step)
    requires Inv(s) && Enabled(s, step)
    requires step.PollLock? || step.PollReacquire? || step.PollWait? || step.PollReturn?
    ensures Lower(Left(Apply(s, step)), Left(s))
  {
    LeftIsNatural(s);
    assert Apply(s, step).channels == s.channels;
    if s.reader.Scanning? {
      assert ScanView(s).Valid();
    }
  }

  /** Every step that the HAL takes on its own leaves less to do. */
  lemma InternalStepLowers(s: State, step: Step)
    requires Inv(s) && Internal(step) && Enabled(s, step)
    ensures Lower(Left(Apply(s, step)), Left(s))
  {
    if step.WriterReserve? || step.WriterBlock? {
      WriterLowers(s, step);
    } else if step.WriterPublish? {
      PublishLowers(s, step);
    } else if step.PollScan? {
      ScanLowers(s);
    } else if step.PollLock? || step.PollReacquire? || step.PollWait? || step.PollReturn? {
      ReaderLowers(s, step);
    } else {
      InitializerLowers(s, step);
    }
  }

  /** So however it goes on, left alone the HAL comes to rest after finitely many steps, and then waits for
      the framework or the drivers. */
  lemma ComesToRest(s: State) returns (steps: seq<Step>, s': State)
    requires Reachable(s)
    ensures Run(s, steps, s') && forall step <- steps :: Internal(step)
    ensures Quiescent(s') && WaitsForEnvironment(s')
  {
    ReachableInv(s);
    steps, s' := RunToRest(s);
    RunKeepsInv(s, steps, s');
    StuckState(s');
  }

  lemma {:induction false} RunToRest(s: State) returns (steps: seq<Step>, s': State)
    requires Inv(s)
    ensures Run(s, steps, s') && (forall step <- steps :: Internal(step)) && Quiescent(s')
    decreases Left(s).phase, Left(s).publishing, Left(s).queued, Left(s).reader, Left(s).entering
  {
    if Quiescent(s) {
      return [], s;
    }
    var step :| Internal(step) && Enabled(s, step);
    StepKeepsInv(s, step);
    InternalStepLowers(s, step);
    LeftIsNatural(s);
    var rest;
    rest, s' := RunToRest(Apply(s, step));
    steps := [step] + rest;
    assert steps[1..] == rest;
  }
}
