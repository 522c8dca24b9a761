/** Global sensor handles: the tables of multihal.cpp that name a sensor by one number, and the
    lazy initialization that fills them. */
module HandleRegistry {
  import opened Common

  datatype FullHandle = FullHandle(moduleIndex: int, localHandle: int)

  datatype SensorType = Proximity | Temperature | Light | OtherType(code: int)

  datatype Flag = WakeUp | OnChangeMode | OtherFlag(bit: nat)

  /** What a module reports about one sensor; `info` stands for the fields that are only copied. */
  datatype Sensor = Sensor(handle: int, kind: SensorType, flags: set<Flag>, info: int)

  /** A module's sensors, and whether its device reports an API before 1.3. */
  datatype Module = Module(before13: bool, sensors: seq<Sensor>)

  /** A batch_data record. A record marked empty keeps its other fields. */
  datatype BatchData = BatchData(empty: bool, handle: int, flags: int, periodNs: int, timeout: int)

  /** fix_sensor_flags() */
  function FixSensorFlags(before13: bool, s: Sensor): Sensor {
    if !before13 then s
    else
      match s.kind
      case Proximity => s.(flags := s.flags + {OnChangeMode, WakeUp})
      case Temperature => s.(flags := s.flags + {OnChangeMode})
      case Light => s.(flags := s.flags + {OnChangeMode})
      case OtherType(_) => s
  }

  /** For a device older than API 1.3 a proximity sensor wakes up, and proximity, temperature and light
      sensors report on change. No flag is taken away, and no other field is touched. */
  lemma FlagsAreFixed(before13: bool, s: Sensor)
    ensures var f := FixSensorFlags(before13, s);
            && f.handle == s.handle && f.kind == s.kind && f.info == s.info
            && (WakeUp in f.flags <==> WakeUp in s.flags || (before13 && s.kind == Proximity))
            && (OnChangeMode in f.flags <==>
                  OnChangeMode in s.flags
                  || (before13 && (s.kind == Proximity || s.kind == Temperature || s.kind == Light)))
            && (forall bit :: OtherFlag(bit) in f.flags <==> OtherFlag(bit) in s.flags)
  {
  }

  /** A module's sensors with their flags as its API version would have them. */
  function Corrected(m: Module): seq<Sensor> {
    seq(|m.sensors|, k requires 0 <= k < |m.sensors| => FixSensorFlags(m.before13, m.sensors[k]))
  }

  /** `global_to_full`, `full_to_global` and `next_global_handle`. */
  datatype Tables = Tables(globalToFull: map<int, FullHandle>, fullToGlobal: map<FullHandle, int>, next: int) {

    function Assign(full: FullHandle): Tables {
      Tables(globalToFull[next := full], fullToGlobal[full := next], next + 1)
    }

    function LocalHandle(global: int): int {
      if global in globalToFull then globalToFull[global].localHandle else -1
    }

    function ModuleIndex(global: int): int {
      if global in globalToFull then globalToFull[global].moduleIndex else -1
    }

    function GlobalHandle(full: FullHandle): int {
      if full in fullToGlobal then fullToGlobal[full] else -1
    }

    /** The two maps undo each other in both directions. */
    ghost predicate MutualInverses() {
      && (forall full <- fullToGlobal ::
            fullToGlobal[full] in globalToFull && globalToFull[fullToGlobal[full]] == full)
      && (forall global <- globalToFull ::
            globalToFull[global] in fullToGlobal && fullToGlobal[globalToFull[global]] == global)
    }
  }

  const NO_HANDLES := Tables(map[], map[], 1)

  /** The tables after assigning a global handle to each of `fulls`, in order. */
  function AssignAll(fulls: seq<FullHandle>): Tables {
    if fulls == [] then NO_HANDLES
    else AssignAll(fulls[..|fulls| - 1]).Assign(fulls[|fulls| - 1])
  }

  lemma AssignOneMore(fulls: seq<FullHandle>, full: FullHandle)
    ensures AssignAll(fulls).next == |fulls| + 1
    ensures AssignAll(fulls + [full]) == AssignAll(fulls).Assign(full)
  {
    AssignedHandles(fulls);
    assert (fulls + [full])[..|fulls|] == fulls;
  }

  ghost predicate Distinct(s: seq<FullHandle>) {
    forall i, j :: 0 <= i < j < |s| ==> s[i] != s[j]
  }

  /** Handle g stands for the (g-1)-th assigned sensor and nothing else is a handle; of sensors with
      the same full handle the last one assigned is the one looked up. */
  lemma {:induction false} AssignedHandles(fulls: seq<FullHandle>)
    ensures var t := AssignAll(fulls);
            && t.next == |fulls| + 1
            && (forall g :: g in t.globalToFull <==> 1 <= g <= |fulls|)
            && (forall g :: 1 <= g <= |fulls| ==> t.globalToFull[g] == fulls[g - 1])
            && (forall f :: f in t.fullToGlobal <==> f in fulls)
            && (forall f <- t.fullToGlobal ::
                  && 1 <= t.fullToGlobal[f] <= |fulls|
                  && fulls[t.fullToGlobal[f] - 1] == f
                  && forall k :: t.fullToGlobal[f] <= k < |fulls| ==> fulls[k] != f)
  {
    if fulls != [] {
      var n := |fulls| - 1;
      AssignedHandles(fulls[..n]);
      assert fulls == fulls[..n] + [fulls[n]];
    }
  }

  /** Looking a full handle up and resolving the result gives it back, whatever was assigned. The
      tables are mutual inverses exactly when no full handle was assigned twice. */
  lemma LookupsInvert(fulls: seq<FullHandle>)
    ensures var t := AssignAll(fulls);
            && (forall f <- t.fullToGlobal ::
                  t.fullToGlobal[f] in t.globalToFull && t.globalToFull[t.fullToGlobal[f]] == f)
            && (t.MutualInverses() <==> Distinct(fulls))
  {
    AssignedHandles(fulls);
    var t := AssignAll(fulls);
    if t.MutualInverses() {
      forall i, j | 0 <= i < j < |fulls|
        ensures fulls[i] != fulls[j]
      {
        assert i + 1 in t.globalToFull && j + 1 in t.globalToFull;
      }
    }
    if Distinct(fulls) {
      forall g <- t.globalToFull
        ensures t.globalToFull[g] in t.fullToGlobal && t.fullToGlobal[t.globalToFull[g]] == g
      {
        assert t.globalToFull[g] == fulls[g - 1];
      }
    }
  }

  // The order in which the second pass of lazy_init_sensors_list() visits the sensors.

  function ModuleHandles(moduleIndex: int, sensors: seq<Sensor>): (r: seq<FullHandle>)
    ensures |r| == |sensors|
  {
    seq(|sensors|, i requires 0 <= i < |sensors| => FullHandle(moduleIndex, sensors[i].handle))
  }

  function AllHandles(modules: seq<Module>): seq<FullHandle> {
    if modules == [] then []
    else
      var m := |modules| - 1;
      AllHandles(modules[..m]) + ModuleHandles(m, modules[m].sensors)
  }

  function AllSensors(modules: seq<Module>): seq<Sensor> {
    if modules == [] then []
    else AllSensors(modules[..|modules| - 1]) + Corrected(modules[|modules| - 1])
  }

  lemma {:induction false} HandlesMatchSensors(modules: seq<Module>)
    ensures |AllHandles(modules)| == |AllSensors(modules)|
    ensures forall f <- AllHandles(modules) :: 0 <= f.moduleIndex < |modules|
  {
    if modules != [] {
      HandlesMatchSensors(modules[..|modules| - 1]);
    }
  }

  ghost predicate LocalHandlesUnique(sensors: seq<Sensor>) {
    forall i, j :: 0 <= i < j < |sensors| ==> sensors[i].handle != sensors[j].handle
  }

  lemma ModuleHandlesDistinct(m: int, sensors: seq<Sensor>)
    ensures Distinct(ModuleHandles(m, sensors)) <==> LocalHandlesUnique(sensors)
  {
    var r := ModuleHandles(m, sensors);
    assert forall i :: 0 <= i < |sensors| ==> r[i] == FullHandle(m, sensors[i].handle);
  }

  lemma DistinctConcat(a: seq<FullHandle>, b: seq<FullHandle>)
    requires forall x <- a :: x !in b
    ensures Distinct(a + b) <==> Distinct(a) && Distinct(b)
  {
    var c := a + b;
    assert forall i :: 0 <= i < |a| ==> c[i] == a[i];
    assert forall i :: 0 <= i < |b| ==> c[|a| + i] == b[i];
    if Distinct(c) {
      forall i, j | 0 <= i < j < |a| ensures a[i] != a[j] {
        assert c[i] != c[j];
      }
      forall i, j | 0 <= i < j < |b| ensures b[i] != b[j] {
        assert c[|a| + i] != c[|a| + j];
      }
    }
    if Distinct(a) && Distinct(b) {
      forall i, j | 0 <= i < j < |c| ensures c[i] != c[j] {
        if i < |a| <= j {
          assert c[i] in a && c[j] == b[j - |a|];
        } else if |a| <= i {
          assert c[i] == b[i - |a|] && c[j] == b[j - |a|];
        }
      }
    }
  }

  /** No full handle repeats exactly when each module's own handles are unique. */
  lemma {:induction false} DistinctAcrossModules(modules: seq<Module>)
    ensures Distinct(AllHandles(modules)) <==> forall m :: 0 <= m < |modules| ==> LocalHandlesUnique(modules[m].sensors)
  {
    if modules != [] {
      var m := |modules| - 1;
      DistinctAcrossModules(modules[..m]);
      HandlesMatchSensors(modules[..m]);
      ModuleHandlesDistinct(m, modules[m].sensors);
      DistinctConcat(AllHandles(modules[..m]), ModuleHandles(m, modules[m].sensors));
      assert forall i :: 0 <= i < m ==> modules[..m][i] == modules[i];
    }
  }

  /** Registry correctness after initialization, for any modules: the handles are 1..n, a lookup
      followed by a resolution is the identity, and resolving inverts too exactly when every module
      numbers its own sensors without repetition. */
  lemma RegistryIsSound(modules: seq<Module>)
    ensures var t := AssignAll(AllHandles(modules));
            var n := |AllSensors(modules)|;
            && (forall g :: g in t.globalToFull <==> 1 <= g <= n)
            && (forall g <- t.globalToFull :: 0 <= t.ModuleIndex(g) < |modules|)
            && (forall g :: !(1 <= g <= n) ==> t.ModuleIndex(g) == -1 && t.LocalHandle(g) == -1)
            && (forall f :: t.GlobalHandle(f) == -1 <==> f !in AllHandles(modules))
            && (forall f <- t.fullToGlobal ::
                  t.GlobalHandle(f) in t.globalToFull && t.globalToFull[t.GlobalHandle(f)] == f)
            && (t.MutualInverses() <==> forall m :: 0 <= m < |modules| ==> LocalHandlesUnique(modules[m].sensors))
  {
    var fulls := AllHandles(modules);
    HandlesMatchSensors(modules);
    HandlesInRange(fulls, |modules|);
    UnknownHandles(fulls);
    LookupsInvert(fulls);
    DistinctAcrossModules(modules);
  }

  lemma HandlesInRange(fulls: seq<FullHandle>, count: nat)
    requires forall f <- fulls :: 0 <= f.moduleIndex < count
    ensures var t := AssignAll(fulls);
            && (forall g :: g in t.globalToFull <==> 1 <= g <= |fulls|)
            && (forall g <- t.globalToFull :: 0 <= t.ModuleIndex(g) < count)
  {
    AssignedHandles(fulls);
    var t := AssignAll(fulls);
    forall g <- t.globalToFull
      ensures 0 <= t.ModuleIndex(g) < count
    {
      assert t.globalToFull[g] == fulls[g - 1] && fulls[g - 1] in fulls;
    }
  }

  lemma UnknownHandles(fulls: seq<FullHandle>)
    ensures var t := AssignAll(fulls);
            && (forall g :: !(1 <= g <= |fulls|) ==> t.ModuleIndex(g) == -1 && t.LocalHandle(g) == -1)
            && (forall f :: t.GlobalHandle(f) == -1 <==> f !in fulls)
  {
    AssignedHandles(fulls);
  }

  /** Copies of `sensors` renumbered to consecutive handles from `first` on. */
  function Renumbered(sensors: seq<Sensor>, first: int): seq<Sensor> {
    seq(|sensors|, k requires 0 <= k < |sensors| => sensors[k].(handle := first + k))
  }

  lemma RenumberedConcat(a: seq<Sensor>, b: seq<Sensor>)
    ensures Renumbered(a + b, 1) == Renumbered(a, 1) + Renumbered(b, |a| + 1)
  {
  }

  lemma OneMoreSensor(moduleIndex: int, m: Module, i: nat, sensors: seq<Sensor>, earlier: seq<FullHandle>)
    requires i < |m.sensors|
    ensures var s := m.sensors[i];
            && sensors + Renumbered(Corrected(m)[..i + 1], |earlier| + 1)
               == (sensors + Renumbered(Corrected(m)[..i], |earlier| + 1))
                  + [FixSensorFlags(m.before13, s.(handle := |earlier| + i + 1))]
            && earlier + ModuleHandles(moduleIndex, m.sensors[..i + 1])
               == (earlier + ModuleHandles(moduleIndex, m.sensors[..i])) + [FullHandle(moduleIndex, s.handle)]
  {
    assert Renumbered(Corrected(m)[..i + 1], |earlier| + 1)
        == Renumbered(Corrected(m)[..i], |earlier| + 1)
           + [FixSensorFlags(m.before13, m.sensors[i].(handle := |earlier| + i + 1))];
    assert ModuleHandles(moduleIndex, m.sensors[..i + 1])
        == ModuleHandles(moduleIndex, m.sensors[..i]) + [FullHandle(moduleIndex, m.sensors[i].handle)];
  }

  /** One more module, one more block of handles and of sensors. */
  lemma NextModule(modules: seq<Module>, m: nat)
    requires m < |modules|
    ensures AllHandles(modules[..m + 1]) == AllHandles(modules[..m]) + ModuleHandles(m, modules[m].sensors)
    ensures AllSensors(modules[..m + 1]) == AllSensors(modules[..m]) + Corrected(modules[m])
  {
    assert modules[..m + 1][..m] == modules[..m];
  }

  lemma {:induction false} Listing(modules: seq<Module>, m: nat)
    requires m < |modules|
    ensures AllSensors(modules[..m]) + Corrected(modules[m]) <= AllSensors(modules)
    ensures AllHandles(modules[..m]) + ModuleHandles(m, modules[m].sensors) <= AllHandles(modules)
  {
    var n := |modules| - 1;
    if m < n {
      Listing(modules[..n], m);
      assert modules[..n][..m] == modules[..m];
    }
  }

  /** Where a module's sensor is listed: behind those of the modules before it, under the handle of its
      place, which the registry resolves back to it; with its flags fixed and all else as reported. */
  lemma ListedSensor(modules: seq<Module>, m: nat, i: nat)
    requires m < |modules| && i < |modules[m].sensors|
    ensures var k, s := |AllSensors(modules[..m])| + i, modules[m].sensors[i];
            var t := AssignAll(AllHandles(modules));
            && k < |AllSensors(modules)|
            && Renumbered(AllSensors(modules), 1)[k] == FixSensorFlags(modules[m].before13, s).(handle := k + 1)
            && t.ModuleIndex(k + 1) == m && t.LocalHandle(k + 1) == s.handle
  {
    var k := |AllSensors(modules[..m])| + i;
    PlaceInListing(modules, m, i);
    Resolved(AllHandles(modules), k);
    RenumberedAt(AllSensors(modules), 1, k);
  }

  lemma RenumberedAt(sensors: seq<Sensor>, first: int, k: nat)
    requires k < |sensors|
    ensures Renumbered(sensors, first)[k] == sensors[k].(handle := first + k)
  {
  }

  lemma Resolved(fulls: seq<FullHandle>, k: nat)
    requires k < |fulls|
    ensures var t := AssignAll(fulls);
            t.ModuleIndex(k + 1) == fulls[k].moduleIndex && t.LocalHandle(k + 1) == fulls[k].localHandle
  {
    AssignedHandles(fulls);
  }

  lemma PlaceInListing(modules: seq<Module>, m: nat, i: nat)
    requires m < |modules| && i < |modules[m].sensors|
    ensures var k, s := |AllSensors(modules[..m])| + i, modules[m].sensors[i];
            && k < |AllSensors(modules)| == |AllHandles(modules)|
            && AllSensors(modules)[k] == FixSensorFlags(modules[m].before13, s)
            && AllHandles(modules)[k] == FullHandle(m, s.handle)
  {
    Listing(modules, m);
    HandlesMatchSensors(modules[..m]);
    HandlesMatchSensors(modules);
    InSecond(AllSensors(modules[..m]), Corrected(modules[m]), AllSensors(modules), i);
    InSecond(AllHandles(modules[..m]), ModuleHandles(m, modules[m].sensors), AllHandles(modules), i);
  }

  lemma InSecond<T>(first: seq<T>, second: seq<T>, all: seq<T>, i: nat)
    requires first + second <= all && i < |second|
    ensures |first| + i < |all| && all[|first| + i] == second[i]
  {
    assert (first + second)[|first| + i] == second[i];
  }

  class SensorRegistry {
    var globalToFull: map<int, FullHandle>
    var fullToGlobal: map<FullHandle, int>
    var nextGlobalHandle: int
    var globalSensorsList: Option<seq<Sensor>>
    var globalSensorsCount: int
    var sensorsEnableState: array<int>
    var sensorsBatchList: array<BatchData>

    ghost function View(): Tables
      reads this
    {
      Tables(globalToFull, fullToGlobal, nextGlobalHandle)
    }

    constructor ()
      ensures View() == NO_HANDLES && globalSensorsList == None
    {
      globalToFull, fullToGlobal, nextGlobalHandle := map[], map[], 1;
      globalSensorsList, globalSensorsCount := None, -1;
      sensorsEnableState, sensorsBatchList := new int[0], new BatchData[0];
    }

    method AssignGlobalHandle(moduleIndex: int, localHandle: int) returns (globalHandle: int)
      modifies this`globalToFull, this`fullToGlobal, this`nextGlobalHandle
      ensures View() == old(View()).Assign(FullHandle(moduleIndex, localHandle))
      ensures globalHandle == old(nextGlobalHandle)
    {
      globalHandle := nextGlobalHandle;
      nextGlobalHandle := nextGlobalHandle + 1;
      var fullHandle := FullHandle(moduleIndex, localHandle);
      fullToGlobal := fullToGlobal[fullHandle := globalHandle];
      globalToFull := globalToFull[globalHandle := fullHandle];
    }

    /** Registers one sensor and returns its corrected and renumbered copy. `handles` are the handles
        assigned before. */
    method RegisterSensor(moduleIndex: int, before13: bool, localSensor: Sensor, ghost handles: seq<FullHandle>)
      returns (copy: Sensor)
      requires View() == AssignAll(handles)
      modifies this`globalToFull, this`fullToGlobal, this`nextGlobalHandle
      ensures View() == AssignAll(handles + [FullHandle(moduleIndex, localSensor.handle)])
      ensures copy == FixSensorFlags(before13, localSensor.(handle := |handles| + 1))
    {
      AssignOneMore(handles, FullHandle(moduleIndex, localSensor.handle));
      var globalHandle := AssignGlobalHandle(moduleIndex, localSensor.handle);
      copy := FixSensorFlags(before13, localSensor.(handle := globalHandle));
    }

    /** One round of the second pass: register the sensors of one module and append their copies to the
        list. `earlier` are the handles of the modules before it. */
    method RegisterModule(moduleIndex: int, m: Module, sensors: seq<Sensor>, ghost earlier: seq<FullHandle>)
      returns (extended: seq<Sensor>)
      requires View() == AssignAll(earlier)
      modifies this`globalToFull, this`fullToGlobal, this`nextGlobalHandle
      ensures View() == AssignAll(earlier + ModuleHandles(moduleIndex, m.sensors))
      ensures extended == sensors + Renumbered(Corrected(m), |earlier| + 1)
    {
      extended := sensors;
      assert earlier + ModuleHandles(moduleIndex, m.sensors[..0]) == earlier;
      for i := 0 to |m.sensors|
        invariant View() == AssignAll(earlier + ModuleHandles(moduleIndex, m.sensors[..i]))
        invariant extended == sensors + Renumbered(Corrected(m)[..i], |earlier| + 1)
      {
        OneMoreSensor(moduleIndex, m, i, sensors, earlier);
        var copy := RegisterSensor(moduleIndex, m.before13, m.sensors[i],
                                   earlier + ModuleHandles(moduleIndex, m.sensors[..i]));
        extended := extended + [copy];
      }
      assert m.sensors[..|m.sensors|] == m.sensors && Corrected(m)[..|m.sensors|] == Corrected(m);
    }

    /** `modules[m]` is what module m reports, on both passes. The first call fills the tables and makes
        the arrays for the enable states and the stored batches, which `handle - 1` indexes; later calls
        change nothing. */
    method LazyInitSensorsList(modules: seq<Module>)
      requires globalSensorsList == None ==> View() == NO_HANDLES
      modifies this
      ensures old(globalSensorsList) != None ==> unchanged(this)
      ensures old(globalSensorsList) == None ==>
                && View() == AssignAll(AllHandles(modules))
                && globalSensorsList == Some(Renumbered(AllSensors(modules), 1))
                && globalSensorsCount == |AllSensors(modules)|
                && fresh(sensorsEnableState) && fresh(sensorsBatchList)
                && sensorsEnableState.Length == sensorsBatchList.Length == globalSensorsCount
                && forall k :: 0 <= k < globalSensorsCount ==> sensorsEnableState[k] == 0 && sensorsBatchList[k].empty
    {
      if globalSensorsList != None {
        return;
      }
      globalSensorsCount := CountSensors(modules);
      AllocateStates(globalSensorsCount);
      var sensors := RegisterAll(modules);
      globalSensorsList := Some(sensors);
    }

    method AllocateStates(count: nat)
      modifies this`sensorsEnableState, this`sensorsBatchList
      ensures fresh(sensorsEnableState) && fresh(sensorsBatchList)
      ensures sensorsEnableState.Length == sensorsBatchList.Length == count
      ensures forall k :: 0 <= k < count ==> sensorsEnableState[k] == 0 && sensorsBatchList[k].empty
    {
      sensorsBatchList := new BatchData[count];
      sensorsEnableState := new int[count];
      for i := 0 to count
        invariant fresh(sensorsEnableState) && fresh(sensorsBatchList)
        invariant sensorsEnableState.Length == sensorsBatchList.Length == count
        invariant forall k :: 0 <= k < i ==> sensorsEnableState[k] == 0 && sensorsBatchList[k].empty
      {
        sensorsEnableState[i] := 0;
        sensorsBatchList[i] := sensorsBatchList[i].(empty := true);
      }
    }

    /** The second pass. */
    method RegisterAll(modules: seq<Module>) returns (sensors: seq<Sensor>)
      requires View() == NO_HANDLES
      modifies this`globalToFull, this`fullToGlobal, this`nextGlobalHandle
      ensures View() == AssignAll(AllHandles(modules))
      ensures sensors == Renumbered(AllSensors(modules), 1)
    {
      sensors := [];
      for moduleIndex := 0 to |modules|
        invariant View() == AssignAll(AllHandles(modules[..moduleIndex]))
        invariant sensors == Renumbered(AllSensors(modules[..moduleIndex]), 1)
      {
        HandlesMatchSensors(modules[..moduleIndex]);
        NextModule(modules, moduleIndex);
        sensors := RegisterModule(moduleIndex, modules[moduleIndex], sensors, AllHandles(modules[..moduleIndex]));
        RenumberedConcat(AllSensors(modules[..moduleIndex]), Corrected(modules[moduleIndex]));
      }
      assert modules[..|modules|] == modules;
    }

    /** The first pass. */
    method CountSensors(modules: seq<Module>) returns (count: int)
      ensures count == |AllSensors(modules)|
    {
      count := 0;
      for m := 0 to |modules|
        invariant count == |AllSensors(modules[..m])|
      {
        NextModule(modules, m);
        count := count + |modules[m].sensors|;
      }
      assert modules[..|modules|] == modules;
    }
  }
}
