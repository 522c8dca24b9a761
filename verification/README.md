# Verified models of the mozart device code

Dafny models of four parts of this repository, with proofs of what they are relied on for. `dafny verify dfyconfig.toml` checks everything.

**Sensor multi-HAL** (`EventQueue`, `HandleRegistry`, `PollScan`, `SensorProtocol`, `SensorProgress`, `DeferredBatch`). One writer thread per sub-HAL reserves a contiguous piece of a ring under a mutex, lets its driver fill it outside the mutex, and publishes it under the mutex again; one poller drains all rings round robin, renames local sensor handles to global ones, and sleeps when there is nothing to read.
`EventQueue.SensorEventQueue` is the ring as an object over an array, proved against the value type `Ring`. `PollScan.PollContext` is the inner loop of `poll()` over a vector of such objects, proved against the recursive `Scan.Finish`. `SensorProtocol` is the whole thing as a state machine: initialization, any number of writers, drivers that store at any moment, one poller, spurious wake-ups. A step is one section under the mutex, one scan iteration (the poller holds the mutex throughout its scan), or one store of a driver; the theorems hold in every interleaving. `SensorProgress` shows that it comes to rest when left alone. `DeferredBatch` is the bookkeeping for devices without a batch call, under any run of `activate`, `batch` and `setDelay`.

**HWC2OnFbAdapter with the DSS overlay** (`OverlayGeometry`, `OverlayAdapter`, `OverlayRuns`, `Blending`, `Composition`, `Preservation`). The patched adapter as an object with maps, proved against functions on its fields; theorems over every sequence of calls; and what the layers handed to the hardware show, compared with composing everything in software.

**MAC address persistence** (`MacText`, `MacInstall`). Parser, printer, and the write-temporary, fsync, rename procedure over a file system that may lose unsynced data and late directory updates.

**Legacy decoder frame rates** (`FrameRate`).

## What the proofs found

- A period batched while the sensor is disabled passes through a 32-bit `int`: three seconds reach the driver as a negative number (`LongDeferredPeriodIsCorrupted`). And a period set by `setDelay` for a disabled sensor is overridden by an older stored batch when the sensor is enabled (`OlderBatchWins`). When the period asked for last survives, exactly, is `PeriodIsPreserved`.
- `device__setDelay` does not look at the enable state: a driver gets `setDelay` for a disabled sensor exactly if the framework asked for that (`DelaysAreSafe`).
- When an activation also sends a stored period, `device__activate` returns 1 for any failure, not the driver's negative error (`DeviceActivate`).
- An unregistered metadata event is passed upstream, with -1 as its nested handle; a metadata event is dropped only if its own sensor field is -1 (`RemapIsSound`).
- The rounded source rectangle of a submitted overlay can exceed its buffer by one pixel, on either axis exactly when the crop ends at the buffer's edge and starts on a half pixel (`SourceOverrun`, `SubmittedSourceOverrun`); `HalfPixelCropOverruns` is such an overlay.
- The overlay does not always show what software composition would. At a pixel of its frame it does, for everything the layers can hold, exactly if a layer above is sure to hide it, or its plane alpha is at least 1, its crop has whole edges, and it is opaque or else premultiplied with nothing below it (`PreservedExactly`). The error is known exactly for all contents (`OverlayPreservesPicture`); for opaque layers with whole crops it is at most a thousandth (`OpaqueIsClose`). Each condition fails on displays that are reached:
  - validation accepts plane alphas from 0.999 on, but the overlay is shown unfaded (`ThinVideoIsShownOpaque`);
  - a buffer with an alpha channel, swapped in after validation, is shown without its alpha, over a client target that has been cleared (`SwappedBufferIsShownOpaque`);
  - a crop with fractional edges is rounded, so another part of the buffer is read (`HalfPixelCropIsRead`).
- When an overlay fails, the client target that is posted instead still has the overlay's place cleared, so that frame shows a hole (`FallbackShowsHole`).
- If opening or reading a file fails, `HasValidMac` takes it for invalid: `main` then replaces a valid address (`EnsureMac`, `RunTwice`).
- A validation after acceptance reports no changed type, but still "has changes" as long as there is a clear request (`NegotiationConverges`).
- The guard that recognizes Q16 frame rates misses rates below about 0.9 frames per second; the exact range is in `RoutesAgree`.

## Assumptions

- There is one poller and it asks for at least one event; ring capacities are positive and otherwise arbitrary. A driver's `poll()` stores only into the region it was given, and when it reports n events it has filled the first n slots.
- Every sub-module opens successfully, so queue index and module index agree (device/huawei/mozart/sensors/multihal.cpp:830-842), and reports the same sensor list twice. The device is opened once and then the sensors are listed. Handles passed to `activate`, `batch` and `setDelay` are registered. Where a statement needs a module's local handles to be unique it says so (`Distinct`).
- The hooks for creating and destroying layers, for setting the client target, and for presenting are not part of this model; of them it assumes this. Creating and destroying may or may not reset the validation state, and so may the setters that store nothing (colour, dataspace, sideband stream, visible region). Presenting is refused unless the display is validated, accepting is refused unless it was validated at all, and setting the client target does not reset the state.
- The client target holds what the client composed of the layers as they are at the present. The hardware blends the layers of an overlay in their order over black, each faded by its global alpha, and ignores a layer's own alpha when told not to blend. Software composition fades every layer by its plane alpha, and likewise ignores the alpha of a layer without blending. A buffer whose format has no alpha channel is opaque; the formats' layouts are those their names stand for, and the two vendor formats are the vendor decoder's. The video channel finds the layer's content when it reads exactly the layer's crop, and anything when it reads another rectangle. Floats are reals. Frame coordinates do not overflow: every frame that reaches `fillDssLayer` fits the display. A blend mode other than premultiplied and coverage is `NoBlend`.
- Before `StoreMac` starts, earlier directory updates are on stable storage; the old target's contents need not be. Directory updates reach the disk in order. `write` and `read` are interrupted, or move nothing, only finitely often (`patience`), and a regular file is read up to its end. The vendor helper may leave any disk behind. A call that fails on its own account is counted as failing; an interrupted one, an `unlink` of nothing, or an `open` of a file that is not there is not.

## Model

| member | source | states |
|---|---|---|
| EventQueue.WritableRegion | device/huawei/mozart/sensors/SensorEventQueue.cpp:29-49 | a reserved region is as long as a contiguous one can be, never longer than asked or than the free space, and nonempty whenever there is space and something was asked |
| EventQueue.ReservedIsNotReadable | device/huawei/mozart/sensors/SensorEventQueue.h:37-42 | no slot of a reserved region is readable |
| EventQueue.WriteKeepsReadable | device/huawei/mozart/sensors/SensorEventQueue.h:18-21 | a store into the reserved region, outside the lock, changes nothing the reader can see |
| EventQueue.DequeueIsTail | device/huawei/mozart/sensors/SensorEventQueue.cpp:64-71 | dequeue removes the oldest record, and regions reserved before remain reserved and begin right behind the readable records |
| EventQueue.PublishAppends | device/huawei/mozart/sensors/SensorEventQueue.cpp:51-53 | publishing appends exactly the records stored in the reserved region |
| EventQueue.SensorEventQueue.GetWritableRegion | device/huawei/mozart/sensors/SensorEventQueue.cpp:29-49 | returns the region of the specification, inside the free space, and NULL exactly if it is empty |
| EventQueue.SensorEventQueue.MarkAsWritten | device/huawei/mozart/sensors/SensorEventQueue.cpp:51-53 | the readable records grow by the contents of the region |
| EventQueue.SensorEventQueue.Peek | device/huawei/mozart/sensors/SensorEventQueue.cpp:59-62 | the oldest readable record, or NULL exactly if there is none |
| EventQueue.SensorEventQueue.Dequeue | device/huawei/mozart/sensors/SensorEventQueue.cpp:64-71 | drops the oldest record, if any, and signals space exactly if the queue was full |
| HandleRegistry.AssignedHandles | device/huawei/mozart/sensors/multihal.cpp:78-90 | the handles are exactly 1 to n in order of assignment; of equal full handles the last assigned is the one looked up |
| HandleRegistry.LookupsInvert | device/huawei/mozart/sensors/multihal.cpp:92-124 | resolving a looked-up handle gives the sensor back always; the maps are mutual inverses exactly when no full handle was assigned twice |
| HandleRegistry.DistinctAcrossModules | device/huawei/mozart/sensors/multihal.cpp:49-57 | no full handle repeats exactly when each module numbers its own sensors without repetition |
| HandleRegistry.RegistryIsSound | device/huawei/mozart/sensors/multihal.cpp:692-754 | after listing any modules: handles 1 to the number of sensors, -1 for all others, module indexes in range, and the inverse laws in terms of the modules' own numbering |
| HandleRegistry.ListedSensor | device/huawei/mozart/sensors/multihal.cpp:723-750 | a module's sensor is listed behind those of the modules before it, under the handle of its place, which resolves back to its module and local handle, with its flags fixed and all else as reported |
| HandleRegistry.FlagsAreFixed | device/huawei/mozart/sensors/multihal.cpp:659-674 | which flags are added for which sensors of a device older than API 1.3; none is taken away and no other field changes |
| HandleRegistry.SensorRegistry.AssignGlobalHandle | device/huawei/mozart/sensors/multihal.cpp:82-90 | assigns the next handle in both maps |
| HandleRegistry.SensorRegistry.RegisterModule | device/huawei/mozart/sensors/multihal.cpp:727-750 | registers one module's sensors and appends their copies, renumbered and with the flags fixed for the module's API version |
| HandleRegistry.SensorRegistry.RegisterAll | device/huawei/mozart/sensors/multihal.cpp:717-752 | entry k of the global list is the k-th sensor of all modules with handle k+1 and its flags fixed, and the tables are those of all handles in that order |
| HandleRegistry.SensorRegistry.CountSensors | device/huawei/mozart/sensors/multihal.cpp:692-700 | the first pass counts what the second pass registers |
| HandleRegistry.SensorRegistry.LazyInitSensorsList | device/huawei/mozart/sensors/multihal.cpp:679-754 | the first call fills list, count and tables, and makes one disabled state and one empty batch record per handle; later calls change nothing |
| PollScan.RemapIsSound | device/huawei/mozart/sensors/multihal.cpp:330-350 | which events are dropped, exactly; the handle written into an event or nested event resolves back to its module and local handle, or is -1 exactly for unregistered sensors |
| PollScan.DeliveredOrDropped | device/huawei/mozart/sensors/multihal.cpp:367-374 | every event taken is delivered or dropped |
| PollScan.IterateKeeps | device/huawei/mozart/sensors/multihal.cpp:361-378 | an iteration keeps the known-empty positions right, decreases (queued events, positions not known empty), and conserves per queue what was passed on followed by what remains |
| PollScan.FinishIsExact | device/huawei/mozart/sensors/multihal.cpp:358-378 | the scan delivers min(maxReads, deliverable events), stops short only with every queue empty, and takes from each queue a prefix in order |
| PollScan.PollContext.TakeEvent | device/huawei/mozart/sensors/multihal.cpp:366-376 | the current queue's oldest event goes remapped into the buffer unless dropped, and leaves the queue |
| PollScan.PollContext.VisitQueue | device/huawei/mozart/sensors/multihal.cpp:361-378 | the loop body over the queue objects is one iteration of the specification |
| PollScan.PollContext.ScanQueues | device/huawei/mozart/sensors/multihal.cpp:354-378 | the loop over the queue objects is the specified scan; the buffer holds its events and the count is min(maxReads, deliverable events) |
| SensorProtocol.StepKeepsInv | device/huawei/mozart/sensors/multihal.cpp:133-170 | every step of every thread keeps the protocol invariant |
| SensorProtocol.ReportsArePublished | device/huawei/mozart/sensors/multihal.cpp:150-167 | in every run, exactly the events that a driver's poll() reported, as stored since the reservation, are published or about to be, once and in order |
| SensorProtocol.RegionIsLongest | device/huawei/mozart/sensors/multihal.cpp:145-160 | a driver is given the longest contiguous region there is; its return ends that, to publish as many events as it reported or to start over |
| SensorProtocol.RingIsFifo | device/huawei/mozart/sensors/multihal.cpp:140-167 | in every run: consumed events are a prefix of those the driver reported, the rest is readable or about to be published; the region being filled begins right behind the readable records, has no readable slot, and holds what the driver stored |
| SensorProtocol.EventsAreConserved | device/huawei/mozart/sensors/multihal.cpp:352-392 | in every run: what poll() passed on is, in order, the remapped image of a prefix of what the module's driver reported; reported = delivered + dropped + queued + about to be published |
| SensorProtocol.NoLostWakeup | device/huawei/mozart/sensors/multihal.cpp:162-165 | a blocked poller implies empty queues and the flag set, a blocked writer implies a full queue, and the two are never blocked together |
| SensorProtocol.StuckOnlyOnEnvironment | device/huawei/mozart/sensors/multihal.cpp:140-166 | no deadlock in any phase: the HAL cannot step on its own exactly when it waits to be opened, to be asked for its sensors, to be polled, or for the drivers |
| SensorProgress.InternalStepLowers | device/huawei/mozart/sensors/multihal.cpp:140-166 | every step the HAL takes on its own leaves less to do |
| SensorProgress.ComesToRest | device/huawei/mozart/sensors/multihal.cpp:140-166 | left alone, from every reachable state, it comes to rest after finitely many steps and then waits for the framework or the drivers |
| SensorProtocol.PollIsExact | device/huawei/mozart/sensors/multihal.cpp:360-391 | in every run poll() returns min(what its last call asked for, deliverable events queued when the mutex was last acquired) and sleeps only with every queue empty |
| SensorProtocol.BacklogIsQueued | device/huawei/mozart/sensors/multihal.cpp:379-386 | acquiring the mutex starts a scan with an empty buffer, where the last one stopped, and the backlog is what can be delivered then |
| SensorProtocol.ScanRefines | device/huawei/mozart/sensors/multihal.cpp:361-378 | a scan step of the concurrent machine is an iteration of the sequential scan |
| SensorProtocol.TrafficSeesRegistry | device/huawei/mozart/sensors/multihal.cpp:753-760 | whoever is past the mutex, and every event moved, has the complete registry |
| SensorProtocol.RegistryBeforeTraffic | device/huawei/mozart/sensors/multihal.cpp:827-842 | in every run, a lock by a writer or poll() comes after the end of the listing |
| SensorProtocol.BoundedWaiting | device/huawei/mozart/sensors/multihal.cpp:361-378 | an event is consumed within the stated number of scan iterations, over any number of polls and whatever else runs |
| SensorProtocol.EventWithDAheadIsServed | device/huawei/mozart/sensors/multihal.cpp:361-378 | with d events ahead of it an event is consumed within (d+1) times the number of queues scan iterations |
| DeferredBatch.RequestKeepsSensor | device/huawei/mozart/sensors/multihal.cpp:498-550 | a request for any sensor keeps every legacy sensor's stored batch, enable state and driver in agreement |
| DeferredBatch.DelaysAreSafe | device/huawei/mozart/sensors/multihal.cpp:516-521 | over every run and all devices: a driver gets setDelay for a sensor last told to disable exactly if the framework requested setDelay for a sensor that was not enabled |
| DeferredBatch.DriverSeesItsRequests | device/huawei/mozart/sensors/multihal.cpp:498-550 | over every run and all devices: a sensor's driver sees exactly what the requests for that sensor ask of it, in order and under its own module and local handle, whatever is requested of others |
| DeferredBatch.HandleIsResolved | device/huawei/mozart/sensors/multihal.cpp:92-113 | a handle reaches the module and local handle that the registry has for it |
| DeferredBatch.DeferredBatchIsSafe | device/huawei/mozart/sensors/multihal.cpp:498-550 | in every run: no stored batch while enabled, and while enabled the driver's last period is the one asked for last, as delivered; no setDelay after a disable exactly if none was requested |
| DeferredBatch.PeriodIsPreserved | device/huawei/mozart/sensors/multihal.cpp:190-196 | the delivered period is the one asked for last exactly when it went directly, fits a 32-bit int if it was stored, and no different stored batch overrode it |
| DeferredBatch.LongDeferredPeriodIsCorrupted | device/huawei/mozart/sensors/multihal.cpp:190-196 | three seconds, batched before enabling, reach the driver as a negative period |
| DeferredBatch.OlderBatchWins | device/huawei/mozart/sensors/multihal.cpp:498-521 | setDelay for a disabled sensor loses against a batch stored earlier |
| DeferredBatch.BatchControl.DeviceActivate | device/huawei/mozart/sensors/multihal.cpp:498-514 | does what the run theorems are about; returns 1 or 0 when a stored period was sent, else the driver's result |
| DeferredBatch.BatchControl.DeviceBatch | device/huawei/mozart/sensors/multihal.cpp:529-550 | does what the run theorems are about; storing a batch reports success |
| DeferredBatch.BatchControl.DeviceSetDelay | device/huawei/mozart/sensors/multihal.cpp:516-521 | does what the run theorems are about, whatever the enable state |
| OverlayGeometry.VideoFormats | patches/hardware/interfaces/hwc2onfbadapter-hisi-dss-overlay-fallback.patch:189-235 | exactly five HAL formats count as video |
| OverlayGeometry.ConversionKeepsLayout | patches/hardware/interfaces/hwc2onfbadapter-hisi-dss-overlay-fallback.patch:194-235 | exactly the nine formats of known layout are converted, to a hardware format of the same component order, subsampling and planes, with the whole bytes a pixel takes |
| OverlayGeometry.AreaIsPixels | patches/hardware/interfaces/hwc2onfbadapter-hisi-dss-overlay-fallback.patch:292-297 | the area compared is the number of pixels a frame covers |
| OverlayGeometry.TransformIsKept | patches/hardware/interfaces/hwc2onfbadapter-hisi-dss-overlay-fallback.patch:242-257 | every named transform is handed on as the same movement of the picture |
| OverlayGeometry.RoundedExtent | patches/hardware/interfaces/hwc2onfbadapter-hisi-dss-overlay-fallback.patch:346-349 | position and size of the source rectangle are the crop's to the nearest pixel, its far edge within one pixel, and exact for whole edges |
| OverlayGeometry.SourceOverrun | patches/hardware/interfaces/hwc2onfbadapter-hisi-dss-overlay-fallback.patch:311-349 | when the source rectangle that fillDssLayer fills in leaves the buffer, exactly, on either axis, and by how much |
| OverlayGeometry.CropIsKept | patches/hardware/interfaces/hwc2onfbadapter-hisi-dss-overlay-fallback.patch:346-349 | the source rectangle is the crop itself exactly if the crop's edges are whole |
| OverlayGeometry.FilledExactly | patches/hardware/interfaces/hwc2onfbadapter-hisi-dss-overlay-fallback.patch:307-323 | fillDssLayer accepts exactly buffers of known format with a crop that is not empty and inside, and a frame that is not empty |
| OverlayGeometry.FilledLayer | patches/hardware/interfaces/hwc2onfbadapter-hisi-dss-overlay-fallback.patch:325-371 | what the filled layer says: the buffer as it is, the frame's pixels, transform, blending, global alpha in 255ths, position, channel, and exactly which capabilities |
| OverlayAdapter.PickIsBest | patches/hardware/interfaces/hwc2onfbadapter-hisi-dss-overlay-fallback.patch:758-785 | the loop finds an eligible layer of largest frame, or none exactly if none is eligible |
| OverlayAdapter.ChoicesAreOrders | patches/hardware/interfaces/hwc2onfbadapter-hisi-dss-overlay-fallback.patch:758-785 | the layers the loop can find over all map orders are exactly the eligible ones of largest frame |
| OverlayAdapter.EligibleExactly | patches/hardware/interfaces/hwc2onfbadapter-hisi-dss-overlay-fallback.patch:765-777 | which layers the overlay takes, spelled out in formats, edges and pixels |
| OverlayAdapter.HWC2OnFbAdapter.ChooseOverlay | patches/hardware/interfaces/hwc2onfbadapter-hisi-dss-overlay-fallback.patch:758-785 | the choice is right whatever the order of the map |
| OverlayAdapter.HWC2OnFbAdapter.AssignTypes | patches/hardware/interfaces/hwc2onfbadapter-hisi-dss-overlay-fallback.patch:787-802 | every layer gets its type, the differing ones are recorded, and client layers are noticed |
| OverlayAdapter.HWC2OnFbAdapter.ValidateLayers | patches/hardware/interfaces/hwc2onfbadapter-hisi-dss-overlay-fallback.patch:744-815 | the new state is the specified validation for some permitted choice |
| OverlayAdapter.HWC2OnFbAdapter.AcceptChanges | patches/hardware/interfaces/hwc2onfbadapter-hisi-dss-overlay-fallback.patch:825-830 | every requested type becomes the validated one |
| OverlayAdapter.HWC2OnFbAdapter.RemoveLayer | patches/hardware/interfaces/hwc2onfbadapter-hisi-dss-overlay-fallback.patch:633-648 | the layer disappears from every table, and the overlay with it if it was the overlay layer |
| OverlayAdapter.HWC2OnFbAdapter.SetAttributeOfLayer | patches/hardware/interfaces/hwc2onfbadapter-hisi-dss-overlay-fallback.patch:670-742 | a setter changes its one attribute of its one layer and resets the state |
| OverlayAdapter.AttributeByField | patches/hardware/interfaces/hwc2onfbadapter-hisi-dss-overlay-fallback.patch:670-742 | which field each setter changes, and that it leaves the others |
| OverlayAdapter.NewLayerIsEmpty | patches/hardware/interfaces/hwc2onfbadapter-hisi-dss-overlay-fallback.patch:981-991 | what a new layer is |
| OverlayAdapter.HWC2OnFbAdapter.PostOverlay | patches/hardware/interfaces/hwc2onfbadapter-hisi-dss-overlay-fallback.patch:837-930 | submits the specified layers, or latches the error |
| OverlayAdapter.HWC2OnFbAdapter.PostBuffer | patches/hardware/interfaces/hwc2onfbadapter-hisi-dss-overlay-fallback.patch:932-940 | shows the overlay or posts the client buffer |
| OverlayRuns.CallKeepsInv | patches/hardware/interfaces/hwc2onfbadapter-hisi-dss-overlay-fallback.patch:624-648 | every call keeps the adapter invariant |
| OverlayRuns.TablesChangeOnly | patches/hardware/interfaces/hwc2onfbadapter-hisi-dss-overlay-fallback.patch:624-648 | the client target changes by its setter only, layers come and go by creation and destruction only |
| OverlayRuns.LayerChangesOnly | patches/hardware/interfaces/hwc2onfbadapter-hisi-dss-overlay-fallback.patch:656-742 | a layer changes by its own setters only, besides its requested type by acceptance and its validated type by validation |
| OverlayRuns.AdapterInvariant | patches/hardware/interfaces/hwc2onfbadapter-hisi-dss-overlay-fallback.patch:991-1001 | over every call sequence: an overlay implies enabled, unlatched and its layer present; client target implies overlay; the layer tables agree; while validated, clear requests and changed types are what the layer states say |
| OverlayRuns.ValidationIsRight | patches/hardware/interfaces/hwc2onfbadapter-hisi-dss-overlay-fallback.patch:758-814 | at most one device layer, present exactly if permitted and some layer is eligible, eligible and covering the most pixels; changed types and clear requests exactly as promised |
| OverlayRuns.NegotiationConverges | patches/hardware/interfaces/hwc2onfbadapter-hisi-dss-overlay-fallback.patch:744-830 | validating again after acceptance picks the same layer, reports no changed type and changes nothing but the state |
| OverlayRuns.SubmittedOverlayIsSound | patches/hardware/interfaces/hwc2onfbadapter-hisi-dss-overlay-fallback.patch:867-899 | every overlay handed to the hardware, even after a buffer swap, has one or two layers in position order inside the display, the video opaque where validation saw it and the client target over the whole display, each describing the format, size and layout of the buffer it is read from |
| OverlayRuns.SubmittedSourceOverrun | patches/hardware/interfaces/hwc2onfbadapter-hisi-dss-overlay-fallback.patch:867-899 | in every submitted overlay: when the video's source rectangle leaves its buffer, exactly; the client target's never does |
| OverlayRuns.HalfPixelCropOverruns | patches/hardware/interfaces/hwc2onfbadapter-hisi-dss-overlay-fallback.patch:346-349 | an overlay that is reached, shown, and reads five columns of a buffer with four |
| OverlayRuns.FailureFallsBack | patches/hardware/interfaces/hwc2onfbadapter-hisi-dss-overlay-fallback.patch:932-940 | a present shows the overlay or posts the client buffer, never both; it latches exactly when a pending overlay was not shown |
| OverlayRuns.LatchHolds | patches/hardware/interfaces/hwc2onfbadapter-hisi-dss-overlay-fallback.patch:750-760 | once latched, no overlay is submitted and every validation makes all layers client layers until a validation sees the property off |
| OverlayRuns.FailedOverlayStaysOff | patches/hardware/interfaces/hwc2onfbadapter-hisi-dss-overlay-fallback.patch:847-923 | after a failed overlay the display is modified, the buffer was posted, and the overlay stays off in every run with the property on |
| OverlayRuns.PropertyOffReleasesLatch | patches/hardware/interfaces/hwc2onfbadapter-hisi-dss-overlay-fallback.patch:750-756 | after a validation with the property off, the next one with it on brings the overlay back exactly if some layer is eligible |
| Blending.PunchedPixel | patches/hardware/interfaces/hwc2onfbadapter-hisi-dss-overlay-fallback.patch:804-811 | for any stack of layers: clearing the video's place in the client target and blending the target over a plane of any colour misses the software picture by exactly the gap of that plane, seen through the layers above |
| Composition.OverlayIsShown | patches/hardware/interfaces/hwc2onfbadapter-hisi-dss-overlay-fallback.patch:869-899 | the layers submitted in a present that is shown display the client target blended premultiplied over what the video channel reads, unfaded, in the video's frame, on black, whatever the layers hold |
| Composition.OverlayPreservesPicture | patches/hardware/interfaces/hwc2onfbadapter-hisi-dss-overlay-fallback.patch:867-899 | over every call sequence, all contents and whatever is read: what the submitted layers, or the posted client target, show differs from software composition by exactly the gap of what the video channel reads, and only in the overlay's frame |
| Composition.ExactAtPixel | patches/hardware/interfaces/hwc2onfbadapter-hisi-dss-overlay-fallback.patch:867-899 | the display is exact at a pixel of the overlay's frame exactly if the layers above hide it, or the colour read is the one that software makes of the layer and what is below it |
| Composition.OpaqueIsClose | patches/hardware/interfaces/hwc2onfbadapter-hisi-dss-overlay-fallback.patch:765-777 | an opaque overlay layer with whole crop edges is shown within a thousandth of software composition, at every pixel and over every call sequence |
| Composition.FallbackShowsHole | patches/hardware/interfaces/hwc2onfbadapter-hisi-dss-overlay-fallback.patch:932-940 | a present whose overlay fails shows black in the overlay's frame where software shows the video and what is below it |
| Preservation.PreservedExactlyAtPixel | patches/hardware/interfaces/hwc2onfbadapter-hisi-dss-overlay-fallback.patch:765-777 | at a pixel, all contents are shown as software composes them exactly if the overlay layer does not cover it, a layer above is sure to hide it, or it has plane alpha at least 1, whole crop edges, and is opaque or premultiplied with nothing below it |
| Preservation.PreservedExactly | patches/hardware/interfaces/hwc2onfbadapter-hisi-dss-overlay-fallback.patch:744-815 | the same for whole pictures: for all contents, pixels and channels, in whatever order the layers lie |
| Preservation.ThinVideoIsShownOpaque | patches/hardware/interfaces/hwc2onfbadapter-hisi-dss-overlay-fallback.patch:767 | for every plane alpha in [0.999, 1): a display that is reached and is brighter than software composition |
| Preservation.SwappedBufferIsShownOpaque | patches/hardware/interfaces/hwc2onfbadapter-hisi-dss-overlay-fallback.patch:656-668 | a display that is reached by swapping the video buffer for one with an alpha channel, and shows half the colour of software composition |
| Preservation.HalfPixelCropIsRead | patches/hardware/interfaces/hwc2onfbadapter-hisi-dss-overlay-fallback.patch:346-349 | a display that is reached with a crop starting on a half pixel, and shows whatever is read at the rounded rectangle instead of the layer's content |
| MacText.PrintParses | device/huawei/mozart/macaddr/mac_addr_normalization.cpp:180-187 | the printout of an address stands for exactly its six bytes |
| MacText.ParsedTextIsPrinted | device/huawei/mozart/macaddr/mac_addr_normalization.cpp:80-93 | a text that parses is, in upper case, the printout of its parse |
| MacText.HexDigits | device/huawei/mozart/macaddr/mac_addr_normalization.cpp:69-78 | which characters are digits, in either case, and their values |
| MacText.GeneratedIsAcceptable | device/huawei/mozart/macaddr/mac_addr_normalization.cpp:156-172 | every fallback address is unicast, locally administered and accepted by the parser |
| MacText.MakeLocalIsMasking | device/huawei/mozart/macaddr/mac_addr_normalization.cpp:170 | what the two bit masks do to any byte |
| MacText.ParseMac | device/huawei/mozart/macaddr/mac_addr_normalization.cpp:80-103 | accepts exactly the texts that encode an acceptable address, and stores that address |
| MacText.TrimmedIsBare | device/huawei/mozart/macaddr/mac_addr_normalization.cpp:122-125 | exactly the white space at the end is removed |
| MacText.SpaceCharacters | device/huawei/mozart/macaddr/mac_addr_normalization.cpp:122-125 | which characters are white space |
| MacText.ValidContentExactly | device/huawei/mozart/macaddr/mac_addr_normalization.cpp:105-129 | a file is valid exactly if its first 32 bytes are the text of a valid address followed by white space only |
| MacText.PrintedIsValidContent | device/huawei/mozart/macaddr/mac_addr_normalization.cpp:105-129 | a file holding a printed acceptable address is found valid |
| MacInstall.UntouchedIsAtomic | device/huawei/mozart/macaddr/mac_addr_normalization.cpp:193-218 | as long as the target's entry and file are untouched, a stop finds only what it could have found before |
| MacInstall.InstallIsAtomic | device/huawei/mozart/macaddr/mac_addr_normalization.cpp:220-228 | naming a complete, synced file is safe even if the last directory update is lost |
| MacInstall.AsideThenInstall | device/huawei/mozart/macaddr/mac_addr_normalization.cpp:193-228 | any sequence that stays aside and then installs is atomic after every step |
| MacInstall.OneAfterTheOther | device/huawei/mozart/macaddr/mac_addr_normalization.cpp:236-243 | writing the second target keeps the first safe, even while the directory update that installed it may still be lost, and both are safe after every step |
| MacInstall.WriteFully | device/huawei/mozart/macaddr/mac_addr_normalization.cpp:53-67 | whatever pieces the kernel takes the data in, success means all of it was appended, and nothing else changed at any moment |
| MacInstall.WriteTemporary | device/huawei/mozart/macaddr/mac_addr_normalization.cpp:193-218 | success leaves the whole text synced in a fresh file; every state on the way leaves all other names and files alone |
| MacInstall.StoreMac | device/huawei/mozart/macaddr/mac_addr_normalization.cpp:174-228 | succeeds exactly if no call fails; failure leaves the target as it was, success leaves in a new file the printout of the address made of the six random bytes just read; a stop after any system call leaves that address, or what a stop before could have left |
| MacInstall.SettledIsFound | device/huawei/mozart/macaddr/mac_addr_normalization.cpp:193-228 | what a stop can leave of a target on stable storage is its contents |
| MacInstall.HasValidMac | device/huawei/mozart/macaddr/mac_addr_normalization.cpp:105-129 | true exactly for a file with a valid address that this call could open and read |
| MacInstall.EnsureMac | device/huawei/mozart/macaddr/mac_addr_normalization.cpp:230-232 | success means the file is valid; it is replaced, by the printout of an address made of fresh random bytes, exactly if it was not both valid and read, and otherwise nothing is written; it fails only if some call fails |
| MacInstall.Run | device/huawei/mozart/macaddr/mac_addr_normalization.cpp:236-243 | both paths are ensured, each whatever becomes of the other, and the exit code is 0 exactly if both were; no path fails without a failing call; each file is the one that was there exactly if it was valid and read, and a replacement is locally administered; nothing is written exactly if all was valid and read; and whenever the machine stops after the helper, each path holds a valid address or what a stop then could have left |
| MacInstall.RunTwice | device/huawei/mozart/macaddr/mac_addr_normalization.cpp:236-243 | after any run that returned 0, a second run in which no call fails writes nothing and returns 0; one that returns 0 writes nothing exactly if it could open and read the files each time; a valid address it could not read is replaced |
| FrameRate.NeverConvertedTwice | patches/frameworks/av/img-msvdx-decoder-framerate-compat.patch:44-51 | what either route produces is not taken for Q16 again |
| FrameRate.RatesAreNear | patches/frameworks/av/img-msvdx-decoder-framerate-compat.patch:13-35 | how near each decoder's number is to the rate, for every rate: the Q16 number uncapped, the legacy one capped at 60 |
| FrameRate.RoutesAgree | patches/frameworks/av/img-msvdx-decoder-framerate-compat.patch:13-35 | the two routes agree up to one thousandth of a frame exactly above the threshold or at a Q16 number of at most 1 |
| FrameRate.VideoPortFormat.ConvertForLegacyInput | patches/frameworks/av/img-msvdx-decoder-framerate-compat.patch:44-51 | a legacy input port ends with at most 60000; a Q16 number becomes the nearest thousandth of the rate capped at 60 fps; everything else is unchanged |

## Left out

- SubmittedOverlayIsSound: does not say that the submitted video is in a YUV format, because `postOverlay` does not check the format class of a swapped buffer again.
- SetAttributeOfLayer: stands for the seven layer setters of the same shape and their hooks, with the attribute as an argument.
- ScanQueues: is the inner loop of `poll()`; the outer loop with its condition wait is in the state machine, where other threads can run.
- The class `SensorEventQueue` has no `waitForSpace`: blocking is in the state machine, as the steps `WriterBlock` and `WriterWake`.
- The fallback branch of `sensors_poll_context_t::batch`, which `device__batch` never reaches.
- `flush`, `inject_sensor_data`, `close`, loading of the sub-HALs, and the configuration file.
- The lists the HWC2 hooks copy out to the caller, and the debug string.
- DSS structure layout, strides and addresses (one opaque number), fences, and overflow of frame coordinates that cannot reach the hardware.
- Float rounding and NaN.
- Ownership, permissions, symbolic links and the vendor helper itself.
- The sensor service shims, audio header, init and policy files, build files, scripts, and the one-branch patches: plumbing or easy claims.
