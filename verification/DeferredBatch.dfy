/** device__activate(), device__batch() and device__setDelay(): for a device older than API 1.1 the
    multi-HAL has no batch call, so the period of a disabled sensor is kept and handed to setDelay() when
    it is enabled. */
module DeferredBatch {
  import opened Common
  import opened HandleRegistry

  /** What a driver sees, with the module and local handle it is addressed by. */
  datatype DriverCall =
    | Activate(full: FullHandle, enabled: int)
    | SetDelay(full: FullHandle, ns: int)
    | Batch(full: FullHandle, flags: int, periodNs: int, timeout: int)

  /** The sensors in the order of their global handles, and for each module whether its device
      reports API 1.1 or later. Every module's device was opened. */
  datatype Config = Config(fulls: seq<FullHandle>, modern: seq<bool>) {

    ghost predicate Valid() {
      forall f <- fulls :: 0 <= f.moduleIndex < |modern|
    }

    predicate Registered(handle: int) {
      1 <= handle <= |fulls|
    }

    /** The module and local handle the registry resolves a handle to: those of the sensor listed there. */
    function Full(handle: int): (f: FullHandle)
      requires Registered(handle)
      ensures f == fulls[handle - 1]
    {
      AssignedHandles(fulls);
      var tables := AssignAll(fulls);
      FullHandle(tables.ModuleIndex(handle), tables.LocalHandle(handle))
    }

    predicate Modern(handle: int): (m: bool)
      requires Valid() && Registered(handle)
      ensures m == modern[fulls[handle - 1].moduleIndex]
    {
      modern[Full(handle).moduleIndex]
    }

    /** The multi-HAL forwards a call only for a local handle that is not negative. */
    predicate Reaches(handle: int): (r: bool)
      requires Registered(handle)
      ensures r <==> fulls[handle - 1].localHandle >= 0
    {
      Full(handle).localHandle >= 0
    }

    function Forward(log: seq<DriverCall>, handle: int, call: DriverCall): seq<DriverCall>
      requires Registered(handle)
    {
      if Reaches(handle) then log + [call] else log
    }
  }

  /** `sensors_enable_state`, `sensors_batch_list`, and the calls the drivers have received. */
  datatype Control = Control(enabled: seq<int>, batches: seq<BatchData>, log: seq<DriverCall>)

  datatype Request =
    | ActivateRequest(handle: int, enable: int)
    | BatchRequest(handle: int, flags: int, periodNs: int, timeout: int)
    | SetDelayRequest(handle: int, ns: int)

  ghost predicate Fits(cfg: Config, c: Control) {
    cfg.Valid() && |c.enabled| == |c.batches| == |cfg.fulls|
  }

  function Handle(cfg: Config, c: Control, r: Request): Control
    requires Fits(cfg, c) && cfg.Registered(r.handle)
  {
    var k := r.handle - 1;
    var full := cfg.Full(r.handle);
    match r
    case ActivateRequest(handle, enable) =>
      var log := cfg.Forward(c.log, handle, Activate(full, enable));
      if cfg.Modern(handle) then c.(log := log)
      else if enable != 0 && !c.batches[k].empty then
        Control(c.enabled[k := enable], c.batches[k := c.batches[k].(empty := true)],
                cfg.Forward(log, handle, SetDelay(full, c.batches[k].periodNs)))
      else
        c.(enabled := c.enabled[k := enable], log := log)
    case BatchRequest(handle, flags, periodNs, timeout) =>
      if cfg.Modern(handle) then
        c.(log := cfg.Forward(c.log, handle, Batch(full, flags, periodNs, timeout)))
      else if c.enabled[k] == 0 then
        // update_batch_data() takes the period and the timeout as 32-bit ints.
        c.(batches := c.batches[k := BatchData(false, handle, flags, ToInt32(periodNs), ToInt32(timeout))])
      else
        c.(log := cfg.Forward(c.log, handle, SetDelay(full, periodNs)))
    case SetDelayRequest(handle, ns) =>
      // Whether the sensor is enabled, and whether a batch is stored for it, plays no part.
      c.(log := cfg.Forward(c.log, handle, SetDelay(full, ns)))
  }

  ghost predicate AllRegistered(cfg: Config, rs: seq<Request>) {
    forall r <- rs :: cfg.Registered(r.handle)
  }

  /** The state after a whole run of requests. */
  function HandleAll(cfg: Config, c: Control, rs: seq<Request>): (c': Control)
    requires Fits(cfg, c) && AllRegistered(cfg, rs)
    ensures Fits(cfg, c')
  {
    if rs == [] then c
    else Handle(cfg, HandleAll(cfg, c, rs[..|rs| - 1]), rs[|rs| - 1])
  }

  ghost predicate Initial(cfg: Config, c: Control) {
    && Fits(cfg, c) && c.log == []
    && (forall k :: 0 <= k < |c.enabled| ==> c.enabled[k] == 0)
    && (forall k :: 0 <= k < |c.batches| ==> c.batches[k].empty)
  }

  // What the driver has seen last of one sensor.

  function LastActivation(log: seq<DriverCall>, full: FullHandle): int {
    if log == [] then 0
    else
      var last := log[|log| - 1];
      if last.Activate? && last.full == full then last.enabled else LastActivation(log[..|log| - 1], full)
  }

  function LastDelay(log: seq<DriverCall>, full: FullHandle): Option<int> {
    if log == [] then None
    else
      var last := log[|log| - 1];
      if last.SetDelay? && last.full == full then Some(last.ns) else LastDelay(log[..|log| - 1], full)
  }

  /** No setDelay() reaches a sensor whose last activate() was a disable, or that was never enabled. */
  ghost predicate DelaysOnlyEnabled(log: seq<DriverCall>) {
    forall p :: 0 <= p < |log| && log[p].SetDelay? ==> LastActivation(log[..p], log[p].full) != 0
  }

  /** A period the framework asked for: in a batch for an enabled sensor or by setDelay, which goes to
      the driver at once; in a batch for a disabled sensor, which is stored; or by setDelay for a sensor
      with a stored batch, which will go to the driver later. */
  datatype Asked = Directly(periodNs: int) | Stored(periodNs: int) | Superseded(periodNs: int, batched: int)

  /** The period asked for last. */
  function LastAsked(rs: seq<Request>, handle: int): Option<Asked> {
    if rs == [] then None
    else
      var r, before := rs[|rs| - 1], rs[..|rs| - 1];
      if r.handle != handle || r.ActivateRequest? then LastAsked(before, handle)
      else if r.BatchRequest? then
        Some(if EnabledBy(before, handle) then Directly(r.periodNs) else Stored(r.periodNs))
      else
        Some(if Pending(before, handle).Some? then Superseded(r.ns, Pending(before, handle).value) else Directly(r.ns))
  }

  /** The period of the last batch that came while the sensor was disabled, until it is enabled. It has
      passed through a 32-bit int. */
  function Pending(rs: seq<Request>, handle: int): Option<int> {
    if rs == [] then None
    else
      var r, before := rs[|rs| - 1], rs[..|rs| - 1];
      if r.handle == handle && r.ActivateRequest? && r.enable != 0 then None
      else if r.handle == handle && r.BatchRequest? && !EnabledBy(before, handle) then Some(ToInt32(r.periodNs))
      else Pending(before, handle)
  }

  function EnabledBy(rs: seq<Request>, handle: int): bool {
    if rs == [] then false
    else
      var r := rs[|rs| - 1];
      if r.ActivateRequest? && r.handle == handle then r.enable != 0 else EnabledBy(rs[..|rs| - 1], handle)
  }

  /** What an enabled sensor's driver has for a request. */
  function AsDelivered(asked: Asked): int {
    match asked
    case Directly(periodNs) => periodNs
    case Stored(periodNs) => ToInt32(periodNs)
    case Superseded(_, batched) => batched
  }

  /** Every setDelay() request that reaches a driver comes while the sensor is enabled. */
  ghost predicate DelaysAskedEnabled(cfg: Config, rs: seq<Request>)
    requires AllRegistered(cfg, rs)
  {
    forall p :: 0 <= p < |rs| && rs[p].SetDelayRequest? && cfg.Reaches(rs[p].handle) ==>
      EnabledBy(rs[..p], rs[p].handle)
  }

  // The run invariant: for any sensor, and more for a legacy one.

  ghost predicate ActivationInv(cfg: Config, c: Control, rs: seq<Request>, handle: int)
    requires cfg.Registered(handle)
  {
    cfg.Reaches(handle) ==> (LastActivation(c.log, cfg.Full(handle)) != 0 <==> EnabledBy(rs, handle))
  }

  ghost predicate SensorInv(cfg: Config, c: Control, rs: seq<Request>, handle: int)
    requires Fits(cfg, c) && cfg.Registered(handle)
  {
    && Agree(c.enabled[handle - 1], c.batches[handle - 1], LastAsked(rs, handle), Pending(rs, handle),
             EnabledBy(rs, handle))
    && (cfg.Reaches(handle) ==>
          DriverAgrees(c.enabled[handle - 1], c.batches[handle - 1], LastAsked(rs, handle),
                       LastActivation(c.log, cfg.Full(handle)), LastDelay(c.log, cfg.Full(handle))))
  }

  /** A sensor's enable state and record, and the requests for it. */
  ghost predicate Agree(enabled: int, batch: BatchData, asked: Option<Asked>, pending: Option<int>, enabledBy: bool) {
    && (enabled != 0 <==> enabledBy)
    && (enabled != 0 ==> batch.empty)
    && pending == (if batch.empty then None else Some(batch.periodNs))
    && (!batch.empty ==> asked.Some? && batch.periodNs == AsDelivered(asked.value))
  }

  /** A sensor's enable state and record, and what its driver has seen last. */
  ghost predicate DriverAgrees(enabled: int, batch: BatchData, asked: Option<Asked>, activation: int,
                               delay: Option<int>)
  {
    && activation == enabled
    && (batch.empty && asked.Some? ==> delay == Some(AsDelivered(asked.value)))
  }

  lemma LogGrows(log: seq<DriverCall>, call: DriverCall, full: FullHandle)
    ensures LastActivation(log + [call], full)
         == if call.Activate? && call.full == full then call.enabled else LastActivation(log, full)
    ensures LastDelay(log + [call], full)
         == if call.SetDelay? && call.full == full then Some(call.ns) else LastDelay(log, full)
  {
    assert (log + [call])[..|log|] == log;
  }

  lemma SafetyGrows(log: seq<DriverCall>, call: DriverCall)
    ensures DelaysOnlyEnabled(log + [call])
            <==> DelaysOnlyEnabled(log) && (call.SetDelay? ==> LastActivation(log, call.full) != 0)
  {
    var grown := log + [call];
    assert forall p :: 0 <= p <= |log| ==> grown[..p] == log[..p];
    assert log[..|log|] == log && grown[|log|] == call;
    assert forall p :: 0 <= p < |log| ==> grown[p] == log[p];
  }

  lemma AskedGrows(cfg: Config, rs: seq<Request>, r: Request)
    requires AllRegistered(cfg, rs + [r]) && AllRegistered(cfg, rs)
    ensures DelaysAskedEnabled(cfg, rs + [r])
            <==> DelaysAskedEnabled(cfg, rs)
                 && (r.SetDelayRequest? && cfg.Reaches(r.handle) ==> EnabledBy(rs, r.handle))
  {
    var grown := rs + [r];
    assert forall p :: 0 <= p <= |rs| ==> grown[..p] == rs[..p];
    assert rs[..|rs|] == rs && grown[|rs|] == r;
    assert forall p :: 0 <= p < |rs| ==> grown[p] == rs[p];
  }

  lemma RequestsGrow(rs: seq<Request>, r: Request, handle: int)
    requires r.handle == handle
    ensures LastAsked(rs + [r], handle) ==
            match r
            case ActivateRequest(_, _) => LastAsked(rs, handle)
            case BatchRequest(_, _, periodNs, _) =>
              Some(if EnabledBy(rs, handle) then Directly(periodNs) else Stored(periodNs))
            case SetDelayRequest(_, ns) =>
              Some(if Pending(rs, handle).Some? then Superseded(ns, Pending(rs, handle).value) else Directly(ns))
    ensures Pending(rs + [r], handle) ==
            match r
            case ActivateRequest(_, enable) => if enable != 0 then None else Pending(rs, handle)
            case BatchRequest(_, _, periodNs, _) =>
              if EnabledBy(rs, handle) then Pending(rs, handle) else Some(ToInt32(periodNs))
            case SetDelayRequest(_, _) => Pending(rs, handle)
    ensures EnabledBy(rs + [r], handle) == if r.ActivateRequest? then r.enable != 0 else EnabledBy(rs, handle)
  {
    assert (rs + [r])[..|rs|] == rs;
  }

  lemma OtherRequest(rs: seq<Request>, r: Request, handle: int)
    requires r.handle != handle
    ensures LastAsked(rs + [r], handle) == LastAsked(rs, handle)
    ensures Pending(rs + [r], handle) == Pending(rs, handle)
    ensures EnabledBy(rs + [r], handle) == EnabledBy(rs, handle)
  {
    assert (rs + [r])[..|rs|] == rs;
  }

  lemma ActivationAfter(cfg: Config, c: Control, r: Request, handle: int)
    requires Fits(cfg, c) && Distinct(cfg.fulls)
    requires cfg.Registered(handle) && cfg.Registered(r.handle)
    ensures LastActivation(Handle(cfg, c, r).log, cfg.Full(handle)) ==
            if r.handle == handle && r.ActivateRequest? && cfg.Reaches(handle) then r.enable
            else LastActivation(c.log, cfg.Full(handle))
  {
    var full, other := cfg.Full(handle), cfg.Full(r.handle);
    assert r.handle != handle ==> full != other;
    match r
    case ActivateRequest(_, enable) =>
      LogGrows(c.log, Activate(other, enable), full);
      LogGrows(c.log + [Activate(other, enable)], SetDelay(other, c.batches[r.handle - 1].periodNs), full);
    case BatchRequest(_, flags, periodNs, timeout) =>
      LogGrows(c.log, Batch(other, flags, periodNs, timeout), full);
      LogGrows(c.log, SetDelay(other, periodNs), full);
    case SetDelayRequest(_, ns) => LogGrows(c.log, SetDelay(other, ns), full);
  }

  lemma DelayAfter(cfg: Config, c: Control, r: Request, handle: int)
    requires Fits(cfg, c) && Distinct(cfg.fulls)
    requires cfg.Registered(handle) && cfg.Registered(r.handle) && !cfg.Modern(handle) && cfg.Reaches(handle)
    ensures LastDelay(Handle(cfg, c, r).log, cfg.Full(handle)) ==
            var before := LastDelay(c.log, cfg.Full(handle));
            if r.handle != handle then before
            else
              match r
              case ActivateRequest(_, enable) =>
                if enable != 0 && !c.batches[handle - 1].empty then Some(c.batches[handle - 1].periodNs) else before
              case BatchRequest(_, _, periodNs, _) => if c.enabled[handle - 1] != 0 then Some(periodNs) else before
              case SetDelayRequest(_, ns) => Some(ns)
  {
    var full, other := cfg.Full(handle), cfg.Full(r.handle);
    assert r.handle != handle ==> full != other;
    match r
    case ActivateRequest(_, enable) =>
      LogGrows(c.log, Activate(other, enable), full);
      LogGrows(c.log + [Activate(other, enable)], SetDelay(other, c.batches[r.handle - 1].periodNs), full);
    case BatchRequest(_, flags, periodNs, timeout) =>
      LogGrows(c.log, Batch(other, flags, periodNs, timeout), full);
      LogGrows(c.log, SetDelay(other, periodNs), full);
    case SetDelayRequest(_, ns) => LogGrows(c.log, SetDelay(other, ns), full);
  }

  lemma OtherRequestKeepsSensor(cfg: Config, c: Control, rs: seq<Request>, r: Request, handle: int)
    requires Fits(cfg, c) && Distinct(cfg.fulls)
    requires cfg.Registered(handle) && cfg.Registered(r.handle) && !cfg.Modern(handle)
    requires SensorInv(cfg, c, rs, handle) && r.handle != handle
    ensures SensorInv(cfg, Handle(cfg, c, r), rs + [r], handle)
  {
    ActivationAfter(cfg, c, r, handle);
    if cfg.Reaches(handle) {
      DelayAfter(cfg, c, r, handle);
    }
    OtherRequest(rs, r, handle);
    OtherRecord(cfg, c, r, handle);
  }

  lemma OtherRecord(cfg: Config, c: Control, r: Request, handle: int)
    requires Fits(cfg, c) && cfg.Registered(handle) && cfg.Registered(r.handle) && r.handle != handle
    ensures var c' := Handle(cfg, c, r);
            && Fits(cfg, c')
            && c'.enabled[handle - 1] == c.enabled[handle - 1] && c'.batches[handle - 1] == c.batches[handle - 1]
  {
  }

  lemma OwnRequestKeepsSensor(cfg: Config, c: Control, rs: seq<Request>, r: Request)
    requires Fits(cfg, c) && Distinct(cfg.fulls)
    requires cfg.Registered(r.handle) && !cfg.Modern(r.handle)
    requires SensorInv(cfg, c, rs, r.handle)
    ensures SensorInv(cfg, Handle(cfg, c, r), rs + [r], r.handle)
  {
    ActivationAfter(cfg, c, r, r.handle);
    if cfg.Reaches(r.handle) {
      DelayAfter(cfg, c, r, r.handle);
    }
    RequestsGrow(rs, r, r.handle);
  }

  /** One request keeps the invariant of every legacy sensor; sensors do not disturb each other because
      no two have the same full handle. */
  lemma RequestKeepsSensor(cfg: Config, c: Control, rs: seq<Request>, r: Request, handle: int)
    requires Fits(cfg, c) && Distinct(cfg.fulls)
    requires cfg.Registered(handle) && cfg.Registered(r.handle) && !cfg.Modern(handle)
    requires SensorInv(cfg, c, rs, handle)
    ensures SensorInv(cfg, Handle(cfg, c, r), rs + [r], handle)
  {
    if r.handle == handle {
      OwnRequestKeepsSensor(cfg, c, rs, r);
    } else {
      OtherRequestKeepsSensor(cfg, c, rs, r, handle);
    }
  }

  lemma RequestKeepsActivation(cfg: Config, c: Control, rs: seq<Request>, r: Request, handle: int)
    requires Fits(cfg, c) && Distinct(cfg.fulls)
    requires cfg.Registered(handle) && cfg.Registered(r.handle)
    requires ActivationInv(cfg, c, rs, handle)
    ensures ActivationInv(cfg, Handle(cfg, c, r), rs + [r], handle)
  {
    ActivationAfter(cfg, c, r, handle);
    if r.handle == handle {
      RequestsGrow(rs, r, handle);
    } else {
      OtherRequest(rs, r, handle);
    }
  }

  /** Only a setDelay() request can make a driver's log unsafe. */
  lemma RequestKeepsSafety(cfg: Config, c: Control, rs: seq<Request>, r: Request)
    requires Fits(cfg, c) && cfg.Registered(r.handle)
    requires ActivationInv(cfg, c, rs, r.handle)
    requires !cfg.Modern(r.handle) ==> SensorInv(cfg, c, rs, r.handle)
    ensures DelaysOnlyEnabled(Handle(cfg, c, r).log)
            <==> DelaysOnlyEnabled(c.log)
                 && (r.SetDelayRequest? && cfg.Reaches(r.handle) ==> EnabledBy(rs, r.handle))
  {
    var full := cfg.Full(r.handle);
    match r
    case ActivateRequest(handle, enable) =>
      SafetyGrows(c.log, Activate(full, enable));
      LogGrows(c.log, Activate(full, enable), full);
      SafetyGrows(c.log + [Activate(full, enable)], SetDelay(full, c.batches[handle - 1].periodNs));
    case BatchRequest(handle, flags, periodNs, timeout) =>
      SafetyGrows(c.log, Batch(full, flags, periodNs, timeout));
      SafetyGrows(c.log, SetDelay(full, periodNs));
    case SetDelayRequest(_, ns) => SafetyGrows(c.log, SetDelay(full, ns));
  }

  lemma {:induction false} RunKeepsInv(cfg: Config, c: Control, rs: seq<Request>)
    requires Initial(cfg, c) && Distinct(cfg.fulls) && AllRegistered(cfg, rs)
    ensures var c' := HandleAll(cfg, c, rs);
            && (DelaysOnlyEnabled(c'.log) <==> DelaysAskedEnabled(cfg, rs))
            && (forall h :: cfg.Registered(h) ==> ActivationInv(cfg, c', rs, h))
            && forall h :: cfg.Registered(h) && !cfg.Modern(h) ==> SensorInv(cfg, c', rs, h)
  {
    if rs != [] {
      var before, r := rs[..|rs| - 1], rs[|rs| - 1];
      RunKeepsInv(cfg, c, before);
      var c1 := HandleAll(cfg, c, before);
      assert rs == before + [r];
      RequestKeepsSafety(cfg, c1, before, r);
      AskedGrows(cfg, before, r);
      forall h | cfg.Registered(h)
        ensures ActivationInv(cfg, HandleAll(cfg, c, rs), rs, h)
        ensures !cfg.Modern(h) ==> SensorInv(cfg, HandleAll(cfg, c, rs), rs, h)
      {
        RequestKeepsActivation(cfg, c1, before, r, h);
        if !cfg.Modern(h) {
          RequestKeepsSensor(cfg, c1, before, r, h);
        }
      }
    }
  }

  // ---------------------------------------------------------------------------------------------
  // Everything a driver sees of one sensor
  // ---------------------------------------------------------------------------------------------

  function CallsTo(log: seq<DriverCall>, full: FullHandle): seq<DriverCall> {
    if log == [] then []
    else CallsTo(log[..|log| - 1], full) + (if log[|log| - 1].full == full then [log[|log| - 1]] else [])
  }

  /** What a request asks of its sensor's driver: a device with API 1.1 gets it as it is; an older one gets
      a period only while the sensor is enabled, and on enabling the one that is pending. */
  function Answer(r: Request, full: FullHandle, modern: bool, enabled: bool, pending: Option<int>): seq<DriverCall> {
    match r
    case ActivateRequest(_, enable) =>
      if modern || enable == 0 || pending.None? then [Activate(full, enable)]
      else [Activate(full, enable), SetDelay(full, pending.value)]
    case BatchRequest(_, flags, periodNs, timeout) =>
      if modern then [Batch(full, flags, periodNs, timeout)]
      else if enabled then [SetDelay(full, periodNs)] else []
    case SetDelayRequest(_, ns) => [SetDelay(full, ns)]
  }

  /** What the requests for one sensor alone ask of its driver. */
  function Asks(rs: seq<Request>, handle: int, full: FullHandle, modern: bool): seq<DriverCall> {
    if rs == [] then []
    else
      var r, before := rs[|rs| - 1], rs[..|rs| - 1];
      var asked := Asks(before, handle, full, modern);
      if r.handle != handle then asked
      else asked + Answer(r, full, modern, EnabledBy(before, handle), Pending(before, handle))
  }

  lemma {:induction false} CallsConcat(log: seq<DriverCall>, more: seq<DriverCall>, full: FullHandle)
    ensures CallsTo(log + more, full) == CallsTo(log, full) + CallsTo(more, full)
  {
    if more == [] {
      assert log + more == log;
    } else {
      var n := |more| - 1;
      CallsConcat(log, more[..n], full);
      assert (log + more)[..|log| + n] == log + more[..n];
    }
  }

  lemma {:induction false} AllCallsTo(calls: seq<DriverCall>, full: FullHandle, to: FullHandle)
    requires forall call <- calls :: call.full == to
    ensures CallsTo(calls, full) == if to == full then calls else []
  {
    if calls != [] {
      AllCallsTo(calls[..|calls| - 1], full, to);
    }
  }

  function PendingIn(batch: BatchData): Option<int> {
    if batch.empty then None else Some(batch.periodNs)
  }

  /** The calls that one request adds to the log. */
  function Added(cfg: Config, c: Control, r: Request): seq<DriverCall>
    requires Fits(cfg, c) && cfg.Registered(r.handle)
  {
    var full, k := cfg.fulls[r.handle - 1], r.handle - 1;
    if full.localHandle < 0 then []
    else Answer(r, full, cfg.modern[full.moduleIndex], c.enabled[k] != 0, PendingIn(c.batches[k]))
  }

  lemma RequestAdds(cfg: Config, c: Control, r: Request)
    requires Fits(cfg, c) && cfg.Registered(r.handle)
    ensures Handle(cfg, c, r).log == c.log + Added(cfg, c, r)
  {
    if r.ActivateRequest? {
      var full := cfg.fulls[r.handle - 1];
      var delay := SetDelay(full, c.batches[r.handle - 1].periodNs);
      assert (c.log + [Activate(full, r.enable)]) + [delay] == c.log + [Activate(full, r.enable), delay];
    }
  }

  lemma CallsAfter(cfg: Config, c: Control, r: Request, full: FullHandle)
    requires Fits(cfg, c) && cfg.Registered(r.handle)
    ensures CallsTo(Handle(cfg, c, r).log, full)
         == CallsTo(c.log, full) + if cfg.fulls[r.handle - 1] == full then Added(cfg, c, r) else []
  {
    RequestAdds(cfg, c, r);
    CallsConcat(c.log, Added(cfg, c, r), full);
    AddedAreOwn(cfg, c, r);
    AllCallsTo(Added(cfg, c, r), full, cfg.fulls[r.handle - 1]);
  }

  lemma AddedAreOwn(cfg: Config, c: Control, r: Request)
    requires Fits(cfg, c) && cfg.Registered(r.handle)
    ensures forall call <- Added(cfg, c, r) :: call.full == cfg.fulls[r.handle - 1]
  {
  }

  /** What the driver has seen of a sensor is what the requests for it ask. */
  ghost predicate TraceInv(cfg: Config, log: seq<DriverCall>, rs: seq<Request>, handle: int)
    requires cfg.Valid() && cfg.Registered(handle)
  {
    var full := cfg.fulls[handle - 1];
    CallsTo(log, full) == if full.localHandle < 0 then [] else Asks(rs, handle, full, cfg.modern[full.moduleIndex])
  }

  lemma AsksGrow(rs: seq<Request>, r: Request, handle: int, full: FullHandle, modern: bool)
    ensures Asks(rs + [r], handle, full, modern) == Asks(rs, handle, full, modern)
              + if r.handle != handle then [] else Answer(r, full, modern, EnabledBy(rs, handle), Pending(rs, handle))
  {
    assert (rs + [r])[..|rs|] == rs;
  }

  lemma OwnRequestKeepsTrace(cfg: Config, c: Control, rs: seq<Request>, r: Request)
    requires Fits(cfg, c) && cfg.Registered(r.handle) && TraceInv(cfg, c.log, rs, r.handle)
    requires !cfg.Modern(r.handle) ==> SensorInv(cfg, c, rs, r.handle)
    ensures TraceInv(cfg, Handle(cfg, c, r).log, rs + [r], r.handle)
  {
    var full := cfg.fulls[r.handle - 1];
    CallsAfter(cfg, c, r, full);
    AsksGrow(rs, r, r.handle, full, cfg.modern[full.moduleIndex]);
  }

  lemma OtherRequestKeepsTrace(cfg: Config, c: Control, rs: seq<Request>, r: Request, handle: int)
    requires Fits(cfg, c) && Distinct(cfg.fulls) && cfg.Registered(r.handle) && cfg.Registered(handle)
    requires TraceInv(cfg, c.log, rs, handle) && r.handle != handle
    ensures TraceInv(cfg, Handle(cfg, c, r).log, rs + [r], handle)
  {
    var full := cfg.fulls[handle - 1];
    assert cfg.fulls[r.handle - 1] != full;
    CallsAfter(cfg, c, r, full);
    AsksGrow(rs, r, handle, full, cfg.modern[full.moduleIndex]);
  }

  lemma RequestKeepsTrace(cfg: Config, c: Control, rs: seq<Request>, r: Request, handle: int)
    requires Fits(cfg, c) && Distinct(cfg.fulls) && cfg.Registered(r.handle) && cfg.Registered(handle)
    requires !cfg.Modern(handle) ==> SensorInv(cfg, c, rs, handle)
    requires TraceInv(cfg, c.log, rs, handle)
    ensures TraceInv(cfg, Handle(cfg, c, r).log, rs + [r], handle)
  {
    if r.handle == handle {
      OwnRequestKeepsTrace(cfg, c, rs, r);
    } else {
      OtherRequestKeepsTrace(cfg, c, rs, r, handle);
    }
  }

  lemma NothingSeen(cfg: Config, handle: int)
    requires cfg.Valid() && cfg.Registered(handle)
    ensures TraceInv(cfg, [], [], handle)
  {
  }

  lemma RunKeepsSensor(cfg: Config, c: Control, rs: seq<Request>, handle: int)
    requires Initial(cfg, c) && Distinct(cfg.fulls) && AllRegistered(cfg, rs) && cfg.Registered(handle)
    ensures !cfg.Modern(handle) ==> SensorInv(cfg, HandleAll(cfg, c, rs), rs, handle)
  {
    RunKeepsInv(cfg, c, rs);
  }

  lemma LastRequestKeepsTrace(cfg: Config, c1: Control, c2: Control, before: seq<Request>, r: Request,
                              rs: seq<Request>, handle: int)
    requires Fits(cfg, c1) && Distinct(cfg.fulls) && cfg.Registered(handle) && cfg.Registered(r.handle)
    requires rs == before + [r] && c2 == Handle(cfg, c1, r)
    requires !cfg.Modern(handle) ==> SensorInv(cfg, c1, before, handle)
    requires TraceInv(cfg, c1.log, before, handle)
    ensures TraceInv(cfg, c2.log, rs, handle)
  {
    RequestKeepsTrace(cfg, c1, before, r, handle);
  }

  lemma {:induction false} RunKeepsTrace(cfg: Config, c: Control, rs: seq<Request>, handle: int)
    requires Initial(cfg, c) && Distinct(cfg.fulls) && AllRegistered(cfg, rs) && cfg.Registered(handle)
    ensures TraceInv(cfg, HandleAll(cfg, c, rs).log, rs, handle)
  {
    if rs == [] {
      NothingSeen(cfg, handle);
    } else {
      var before, r := rs[..|rs| - 1], rs[|rs| - 1];
      RunKeepsTrace(cfg, c, before, handle);
      RunKeepsSensor(cfg, c, before, handle);
      LastRequestKeepsTrace(cfg, HandleAll(cfg, c, before), HandleAll(cfg, c, rs), before, r, rs, handle);
    }
  }

  /** The driver of a sensor sees exactly what the requests for that sensor alone ask of it, in order, under
      the module and local handle that the sensor was listed with; a negative local handle sees nothing. */
  lemma DriverSeesItsRequests(cfg: Config, c: Control, rs: seq<Request>, handle: int)
    requires Initial(cfg, c) && Distinct(cfg.fulls) && AllRegistered(cfg, rs) && cfg.Registered(handle)
    ensures var full := cfg.fulls[handle - 1];
            CallsTo(HandleAll(cfg, c, rs).log, full)
            == if full.localHandle < 0 then [] else Asks(rs, handle, full, cfg.modern[full.moduleIndex])
  {
    RunKeepsTrace(cfg, c, rs, handle);
  }

  /** A handle is resolved to the module and local handle that the registry has for it. */
  lemma HandleIsResolved(cfg: Config, handle: int)
    requires cfg.Registered(handle)
    ensures var t := AssignAll(cfg.fulls);
            && handle in t.globalToFull && t.globalToFull[handle] == cfg.Full(handle)
            && cfg.Full(handle).moduleIndex == t.ModuleIndex(handle)
            && cfg.Full(handle).localHandle == t.LocalHandle(handle)
  {
    AssignedHandles(cfg.fulls);
  }

  /** A driver gets setDelay() for a sensor that it was last told to disable, or was never told to enable,
      exactly if some setDelay() request came for a sensor that was not enabled. */
  lemma DelaysAreSafe(cfg: Config, c: Control, rs: seq<Request>)
    requires Initial(cfg, c) && Distinct(cfg.fulls) && AllRegistered(cfg, rs)
    ensures DelaysOnlyEnabled(HandleAll(cfg, c, rs).log) <==> DelaysAskedEnabled(cfg, rs)
  {
    RunKeepsInv(cfg, c, rs);
  }

  /** In every run of requests, for a legacy sensor: while it is enabled it has no stored batch, and the
      last period its driver received is the last one asked for, as delivered; and if no setDelay() was
      requested while disabled, no driver gets one for a sensor it was last told to disable. */
  lemma DeferredBatchIsSafe(cfg: Config, c: Control, rs: seq<Request>, handle: int)
    requires Initial(cfg, c) && Distinct(cfg.fulls) && AllRegistered(cfg, rs)
    requires cfg.Registered(handle) && !cfg.Modern(handle)
    ensures var c' := HandleAll(cfg, c, rs);
            var asked := LastAsked(rs, handle);
            && (DelaysOnlyEnabled(c'.log) <==> DelaysAskedEnabled(cfg, rs))
            && (c'.enabled[handle - 1] != 0 <==> EnabledBy(rs, handle))
            && (EnabledBy(rs, handle) ==> c'.batches[handle - 1].empty)
            && (EnabledBy(rs, handle) && cfg.Reaches(handle) && asked.Some? ==>
                  LastDelay(c'.log, cfg.fulls[handle - 1]) == Some(AsDelivered(asked.value)))
  {
    RunKeepsInv(cfg, c, rs);
  }

  /** The period delivered is the one asked for exactly when it went directly, fits an int, or came by
      setDelay() for a sensor whose stored batch has the same period. */
  lemma PeriodIsPreserved(cfg: Config, c: Control, rs: seq<Request>, handle: int)
    requires Initial(cfg, c) && Distinct(cfg.fulls) && AllRegistered(cfg, rs)
    requires cfg.Registered(handle) && !cfg.Modern(handle) && cfg.Reaches(handle)
    requires EnabledBy(rs, handle) && LastAsked(rs, handle).Some?
    ensures var asked := LastAsked(rs, handle).value;
            LastDelay(HandleAll(cfg, c, rs).log, cfg.fulls[handle - 1]) == Some(asked.periodNs)
            <==> match asked
                 case Directly(_) => true
                 case Stored(periodNs) => -0x8000_0000 <= periodNs < 0x8000_0000
                 case Superseded(periodNs, batched) => periodNs == batched
  {
    DeferredBatchIsSafe(cfg, c, rs, handle);
  }

  /** A period set directly for a disabled sensor is lost when an older batch is stored for it: enabling
      the sensor delivers the batch. */
  lemma OlderBatchWins(cfg: Config, c: Control)
    requires Initial(cfg, c) && Distinct(cfg.fulls) && |cfg.fulls| > 0
    requires !cfg.Modern(1) && cfg.Reaches(1)
    ensures var rs := [BatchRequest(1, 0, 10_000_000, 0), SetDelayRequest(1, 20_000_000), ActivateRequest(1, 1)];
            LastDelay(HandleAll(cfg, c, rs).log, cfg.fulls[0]) == Some(10_000_000)
  {
    var rs := [BatchRequest(1, 0, 10_000_000, 0), SetDelayRequest(1, 20_000_000), ActivateRequest(1, 1)];
    RequestsGrow([], rs[0], 1);
    RequestsGrow([rs[0]], rs[1], 1);
    RequestsGrow([rs[0], rs[1]], rs[2], 1);
    assert [rs[0]] == [] + [rs[0]] && [rs[0], rs[1]] == [rs[0]] + [rs[1]] && rs == [rs[0], rs[1]] + [rs[2]];
    DeferredBatchIsSafe(cfg, c, rs, 1);
  }

  /** A period of three seconds does not fit: batched before the sensor is enabled, it reaches the
      driver as a negative number. */
  lemma LongDeferredPeriodIsCorrupted(cfg: Config, c: Control)
    requires Initial(cfg, c) && Distinct(cfg.fulls) && |cfg.fulls| > 0
    requires !cfg.Modern(1) && cfg.Reaches(1)
    ensures var rs := [BatchRequest(1, 0, 3_000_000_000, 0), ActivateRequest(1, 1)];
            LastDelay(HandleAll(cfg, c, rs).log, cfg.fulls[0]) == Some(-1_294_967_296)
  {
    var rs := [BatchRequest(1, 0, 3_000_000_000, 0), ActivateRequest(1, 1)];
    RequestsGrow([], rs[0], 1);
    RequestsGrow([rs[0]], rs[1], 1);
    assert rs == [rs[0]] + [rs[1]] && [rs[0]] == [] + [rs[0]];
    DeferredBatchIsSafe(cfg, c, rs, 1);
  }

  class BatchControl {
    const cfg: Config
    const sensorsEnableState: array<int>
    const sensorsBatchList: array<BatchData>
    ghost var log: seq<DriverCall>

    ghost predicate Valid()
      reads this, sensorsEnableState, sensorsBatchList
    {
      Fits(cfg, View())
    }

    ghost function View(): Control
      reads this, sensorsEnableState, sensorsBatchList
    {
      Control(sensorsEnableState[..], sensorsBatchList[..], log)
    }

    /** The arrays are as lazy_init_sensors_list() leaves them. */
    constructor (cfg: Config, sensorsEnableState: array<int>, sensorsBatchList: array<BatchData>)
      requires cfg.Valid() && sensorsEnableState.Length == sensorsBatchList.Length == |cfg.fulls|
      requires forall k :: 0 <= k < |cfg.fulls| ==> sensorsEnableState[k] == 0 && sensorsBatchList[k].empty
      ensures Valid() && Initial(cfg, View()) && this.cfg == cfg
      ensures this.sensorsEnableState == sensorsEnableState && this.sensorsBatchList == sensorsBatchList
    {
      this.cfg, this.sensorsEnableState, this.sensorsBatchList := cfg, sensorsEnableState, sensorsBatchList;
      log := [];
    }

    /** `activateResult` and `delayResult` are what the driver returns, -EINVAL when it is not reached. */
    method DeviceActivate(handle: int, enabled: int, activateResult: int, delayResult: int) returns (ret: int)
      requires Valid() && cfg.Registered(handle)
      modifies this, sensorsEnableState, sensorsBatchList
      ensures Valid() && View() == Handle(cfg, old(View()), ActivateRequest(handle, enabled))
      ensures ret == if DelaysStored(handle, enabled, old(View()))
                     then (if delayResult != 0 || activateResult != 0 then 1 else 0) else activateResult
    {
      log := cfg.Forward(log, handle, Activate(cfg.Full(handle), enabled));
      if !cfg.Modern(handle) {
        var index := handle - 1;
        sensorsEnableState[index] := enabled;
        if enabled != 0 && !sensorsBatchList[index].empty {
          log := cfg.Forward(log, handle, SetDelay(cfg.Full(handle), sensorsBatchList[index].periodNs));
          sensorsBatchList[index] := sensorsBatchList[index].(empty := true);
          return if delayResult != 0 || activateResult != 0 then 1 else 0;
        }
      }
      return activateResult;
    }

    ghost predicate DelaysStored(handle: int, enabled: int, c: Control)
      requires Fits(cfg, c) && cfg.Registered(handle)
    {
      !cfg.Modern(handle) && enabled != 0 && !c.batches[handle - 1].empty
    }

    method DeviceSetDelay(handle: int, ns: int, driverResult: int) returns (ret: int)
      requires Valid() && cfg.Registered(handle)
      modifies this`log
      ensures Valid() && View() == Handle(cfg, old(View()), SetDelayRequest(handle, ns))
      ensures ret == driverResult
    {
      log := cfg.Forward(log, handle, SetDelay(cfg.Full(handle), ns));
      return driverResult;
    }

    method DeviceBatch(handle: int, flags: int, periodNs: int, timeout: int, driverResult: int) returns (ret: int)
      requires Valid() && cfg.Registered(handle)
      modifies this, sensorsEnableState, sensorsBatchList
      ensures Valid() && View() == Handle(cfg, old(View()), BatchRequest(handle, flags, periodNs, timeout))
      ensures ret == if !cfg.Modern(handle) && old(sensorsEnableState[handle - 1]) == 0 then 0 else driverResult
    {
      if cfg.Modern(handle) {
        log := cfg.Forward(log, handle, Batch(cfg.Full(handle), flags, periodNs, timeout));
        return driverResult;
      }
      var index := handle - 1;
      if sensorsEnableState[index] == 0 {
        sensorsBatchList[index] := BatchData(false, handle, flags, ToInt32(periodNs), ToInt32(timeout));
        return 0;
      }
      log := cfg.Forward(log, handle, SetDelay(cfg.Full(handle), periodNs));
      return driverResult;
    }
  }
}
