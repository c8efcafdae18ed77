# librealsense context core: a Dafny model

This project models, as pure functions over immutable values, the parts of
librealsense that decide which devices a `context` sees and how the DDS
proof-of-concept host tool keeps its statistics:

- **the context** (`src/context.cpp`). Its list of device factories is built
  in a fixed order: the backend first, then the DDS factory when built with
  DDS, then one factory per context module that offers one. The context also
  holds the table of devices the user injected with `add_device` and
  `remove_device`. `query_devices` concatenates what each factory reports and
  then the live injected devices. `combine_device_masks` is the product-line
  mask rule.
- **the module registry** (`module_registry::add` and `create_context_modules`).
  The registry is a name-ordered table of module classes. A duplicate name is
  rejected. A constructor exception becomes a null module. The per-context
  instantiation keeps only the modules that were constructed and accepted
  initialisation.
- **context modules** (`context_module` and `rsdds_module`). A module name
  must not be empty. The DDS module is enabled or disabled by the `"dds"`
  sub-tree of the settings. A disabled DDS module refuses to create a
  factory.
- **the `poc-h` host tool** (`tools/dds/poc/h/poc-h.cpp`):
  - `calc_avg`, an average of two `int64` values that cannot overflow;
  - the time-offset statistics of `calc_time_offset`;
  - the per-frame drop and transit accounting of `process_frame`;
  - `is_stream_enabled`.
- **`info_container`**, the camera-info strings of a device.

Modules, one per file:

| file | module | models |
|---|---|---|
| `results.dfy` | `Results` | exceptions as `Result`, null pointers as `Option` |
| `string_order.dfy` | `StringOrder` | `std::string`'s `<`, the order of a `std::map` with string keys |
| `sorted_map.dfy` | `SortedMap` | `std::map<std::string, V>` as a sorted association list with a `map` view |
| `sequences.dfy` | `Sequences` | the subsequence relation used for "in the same order", sorted string lists, sums |
| `json.dfy` | `Json` | the three kinds of settings value the core tells apart, and `get_ex` |
| `device_mask.dfy` | `DeviceMask` | `combine_device_masks` |
| `context_module.dfy` | `ContextModules` | the `context_module` base class and the factory kinds |
| `rsdds_module.dfy` | `RsddsModule` | `rsdds_module` |
| `module_classes.dfy` | `ModuleClasses` | dispatch of the virtual calls over the module classes |
| `module_registry.dfy` | `ModuleRegistry` | `module_registry` |
| `context.dfy` | `Context` | `context` |
| `info_container.dfy` | `InfoContainer` | `info_container` |
| `clock_sync.dfy` | `ClockSync` | `calc_avg`, `calc_time_offset` |
| `stream_stats.dfy` | `StreamStats` | `stream_stats_data`, `process_frame`, `is_stream_enabled` |

How the C++ is represented:

- A weak pointer in the user-device table is an `Entry(dev, alive)`. The
  pointer expiring is the separate step `Context.ReleaseDevice`.
- Raising `devices_changed` appends a `DevicesChanged(removed, added)` event
  to the context's log.
- Any module class other than `rsdds_module` is described by its behaviour:
  - whether its constructor throws;
  - whether `initialize_module` accepts, declines or throws;
  - whether `create_device_factory` returns a factory, returns null or throws.
- What a factory enumerates is a function parameter of `Context.QueryDevices`.
- C++ integer division is written out as `ClockSync.TDiv` and `ClockSync.TMod`.
- The `uint64` frame numbers are a subset type. The `last_number + 1`
  comparison wraps at 2^64.
- A running average is represented by the list of values it was fed.

Behaviour of the code worth knowing:

- `query_devices` does not remove duplicates: a device two factories report
  appears twice (`Context.QueryKeepsEveryReport`). It does not apply
  `combine_device_masks` either: it passes the requested mask to every factory
  unchanged.
- The context constructor does not catch exceptions from
  `create_device_factory`. A disabled DDS module that was nevertheless kept
  would make construction fail (`Context.New`). Through `rsdds_module` alone
  this cannot happen, because the module is kept only when enabled
  (`Context.DdsModuleFactory`).
- When built with DDS, the context adds its own DDS factory, in addition to
  the one an enabled DDS module adds.

## Model

| member | source | states |
|---|---|---|
| DeviceMask.CombineNormalBits | src/context.cpp:78-80 | every bit other than the software-only bit is the AND of the requested mask and the mask in the settings |
| DeviceMask.CombineDeviceMasks | src/context.cpp:76-85 | the software-only bit of the result is set exactly when either mask sets it; with that bit clear on both sides the rule is a plain AND |
| DeviceMask.CombineCommutes | src/context.cpp:76-85 | the two masks can be swapped |
| DeviceMask.CombineIdempotent | src/context.cpp:76-85 | combining a mask with itself gives it back |
| DeviceMask.CombineKeepsSwOnlyExample | src/context.cpp:76-85 | any-Intel plus software-only requested against any-Intel in the settings keeps the software-only bit (0x1fe) |
| Context.ModuleFactories | src/context.cpp:54-61 | the factories the modules hand back, in module order: nulls skipped, every non-null one kept, nothing else added, and one entry per module that makes a factory (so two modules handing back equal factories give two entries); fails exactly when some module throws |
| Context.New | src/context.cpp:28-62 | the factories are exactly the backend factory, the DDS factory when built with DDS, then the module factories in module order; construction fails exactly when some created module throws from `create_device_factory`; no injected devices and no events yet |
| Context.DdsOnlyModules | lib/rsdds/src/rsdds-module.cpp:29-47 | a registry holding only the DDS module sets up one enabled DDS module exactly when the settings have no "dds" member or an object there, and no module otherwise |
| Context.DdsModuleFactory | lib/rsdds/src/rsdds-module.cpp:29-47 | with only the DDS module registered under "dds", construction succeeds in both builds, and the factories are the built-in ones (backend, plus DDS when built with it) followed by the module's DDS factory exactly when the settings have no "dds" member or an object there |
| Context.Notify | src/context.cpp:113-118 | raising the change event appends exactly one `(removed, added)` event and changes nothing else |
| Context.AddDevice | src/context.cpp:127-138 | fails with "device already in context: <address>" exactly when a live device holds the address; otherwise stores the device under its address (over an expired entry), leaves other addresses alone, and logs exactly `([], [dev])` |
| Context.RemoveDevice | src/context.cpp:141-156 | an unknown address changes nothing; a known one is erased whether alive or expired, other entries stay, and `([stored], [])` is logged only when the stored device was alive |
| Context.AddThenRemove | src/context.cpp:127-156 | adding a new device then removing it logs an add and a remove and restores the table; removing again is a no-op |
| Context.QueryDevices | src/context.cpp:88-110 | a device is in the result exactly when some factory enumerates it or a live injected entry holds it; expired entries are left out |
| Context.FactoryDevices | src/context.cpp:91-98 | a device is among the factories' devices exactly when some factory enumerates it |
| Context.FactoryDevicesLength | src/context.cpp:91-98 | the factories' part is as long as all the factories' lists together |
| Context.QueryParts | src/context.cpp:88-110 | the result is the factories' devices followed by exactly the live injected devices in table order, its length the sum of the two |
| Context.QueryTailInAddressOrder | src/context.cpp:99-106 | on a table keyed by address, the injected devices at the end of the result come in strictly increasing address order |
| Context.QueryKeepsEveryReport | src/context.cpp:91-98 | for any two factories, every device either reports is in the result as often as the two report it together, so nothing is de-duplicated |
| Context.QueryInFactoryOrder | src/context.cpp:91-98 | the result starts with the devices of the first k factories in factory order, so the backend's devices come first |
| Context.LiveUserDevices | src/context.cpp:99-106 | the live injected devices, taken in table order, expired ones skipped |
| Context.LiveUserDevicesInAddressOrder | src/context.cpp:99-106 | the injected devices are listed in strictly increasing address order |
| Context.QueryKeepsDuplicates | src/context.cpp:88-110 | a device reported by two factories appears twice |
| ModuleRegistry.Add | lib/rscore/include/rscore/module-registry.h:71-99 | fails with "duplicate module '<name>' registered" exactly when the name is registered, keeping the existing entry; otherwise adds exactly that name and returns the new size, one more than before |
| ModuleRegistry.AddAll | lib/rscore/include/rscore/module-registry.h:96-98 | the registrations all succeed exactly when the names are distinct and none is registered already; then they return the sizes n+1, n+2, …, strictly increasing, and no registered name is lost |
| ModuleRegistry.AddAllRejectsRepeat | lib/rscore/include/rscore/module-registry.h:96-97 | registering one name twice, however far apart, fails |
| ModuleRegistry.Instantiate | lib/rscore/include/rscore/module-registry.h:78-94 | a constructor exception yields a null module rather than propagating; a module keeps its name |
| ModuleRegistry.Setup | lib/rscore/src/module-registry.cpp:19-35 | a module is kept exactly when it was constructed non-null and `initialize_module` returned true; a null module is never initialised |
| ModuleRegistry.CreateContextModules | lib/rscore/src/module-registry.cpp:13-38 | no more modules than registry entries, their names a subsequence of the registry's name order |
| ModuleRegistry.CreatedModulesAreTheSetUpOnes | lib/rscore/src/module-registry.cpp:17-36 | every entry that was set up is in the result and every result is some entry's set-up module, so an exception drops that entry only |
| ModuleRegistry.CreatedModulesInNameOrder | lib/rscore/src/module-registry.cpp:17-36 | the modules come out in strictly increasing name order, and a registered name is among them exactly when its module was constructed and accepted initialisation |
| Sequences.SubsequenceIncreasing | lib/rscore/include/rscore/module-registry.h:45-46 | a subsequence of a name-ordered list is name-ordered |
| SortedMap.Find | src/context.cpp:131-132 | lookup in the name-ordered table finds exactly the stored value of the key |
| SortedMap.Put | src/context.cpp:134 | assignment to a key sets it and leaves every other key unchanged; the size grows only for a new key |
| SortedMap.Emplace | lib/rscore/include/rscore/module-registry.h:75-95 | emplace inserts exactly when the key is new, and otherwise leaves the table as it was |
| SortedMap.Erase | src/context.cpp:149 | erasing removes exactly that key |
| StringOrder.Transitive | lib/rscore/include/rscore/module-registry.h:45-46 | the key order of the table is transitive |
| StringOrder.Total | lib/rscore/include/rscore/module-registry.h:45-46 | any two different keys are ordered one way |
| ContextModules.NewModuleBase | lib/rscore/include/rscore/context-module.h:35-41 | an empty name throws "empty context module name"; any other name is stored unchanged |
| ModuleClasses.Construct | lib/rscore/include/rscore/context-module.h:35-41 | a derived module constructs exactly when the name is non-empty and its own constructor does not throw |
| ModuleClasses.InitializeModule | lib/rscore/include/rscore/context-module.h:45-51 | `initialize_module` dispatches to the DDS module's rule, or accepts, declines or throws as the class does; the name is kept |
| ModuleClasses.CreateDeviceFactory | lib/rscore/include/rscore/context-module.h:55-58 | `create_device_factory` returns the DDS factory, a module's factory, null, or throws, as the class does |
| RsddsModule.New | lib/rsdds/src/rsdds-module.cpp:21-26 | a new DDS module keeps its name and starts disabled |
| RsddsModule.InitializeModule | lib/rsdds/src/rsdds-module.cpp:29-36 | a missing key leaves the module enabled with an empty object; a present one is stored and enables the module exactly when it is an object; the result is `is_enabled()` |
| RsddsModule.CreateDeviceFactory | lib/rsdds/src/rsdds-module.cpp:38-43 | fails with "<name> module is disabled" exactly when disabled, otherwise gives the DDS device factory |
| InfoContainer.SupportAfterChanges | src/core/info-container.cpp:11-35 | registering adds support for its key and nothing else; updating never changes which infos are supported |
| InfoContainer.GetInfo | src/core/info-container.cpp:36-43 | an absent key fails with the not-supported invalid-value error; a present one gives the stored string |
| InfoContainer.RegisterInfo | src/core/info-container.cpp:17-27 | an absent key gets the value, an equal value changes nothing, a different value gets the new one appended after a newline; other keys stay |
| InfoContainer.RegisterInfoAppends | src/core/info-container.cpp:17-27 | the old string stays as a prefix and the registered value ends the stored string |
| InfoContainer.RegisterInfoTwice | src/core/info-container.cpp:17-27 | registering a value twice equals registering it once exactly when the key was absent or already held that value |
| InfoContainer.UpdateInfo | src/core/info-container.cpp:29-35 | replaces the value of a present key, never adds one, leaves other keys alone |
| InfoContainer.UpdateThenGet | src/core/info-container.cpp:29-43 | after an update, `get_info` returns the new value exactly when the key was supported |
| InfoContainer.Update | src/core/info-container.cpp:53-66 | registers, in index order, every info below the count that the snapshot supports; other keys keep their values; a snapshot without the info interface changes nothing |
| ClockSync.CalcAvg | tools/dds/poc/h/poc-h.cpp:63-74 | the result is the mean rounded down or up, so it lies between the inputs |
| ClockSync.CalcAvgNonNegative | tools/dds/poc/h/poc-h.cpp:63-74 | for non-negative inputs the result is the floor of (a+b)/2, and the leftover is incremented by 1 exactly when one input is odd |
| ClockSync.CalcAvgNonPositive | tools/dds/poc/h/poc-h.cpp:63-74 | for non-positive inputs the result is C++'s truncated (a+b)/2 |
| ClockSync.CalcAvgNoOverflow | tools/dds/poc/h/poc-h.cpp:65-73 | no intermediate value leaves `int64` when the inputs are `int64` |
| ClockSync.CalcAvgMixedSigns | tools/dds/poc/h/poc-h.cpp:63-74 | calc_avg(-1, 2) is 1 while the truncated (a+b)/2 is 0 |
| ClockSync.Offset | tools/dds/poc/h/poc-h.cpp:133 | the offset is the host's midpoint `(t0 + t3) / 2` minus the device's midpoint `(t1 + t2) / 2`, within one unit of rounding either way (twice the offset is within 2 of `(t0 + t3) - (t1 + t2)`) |
| ClockSync.SymmetricRoundTrip | tools/dds/poc/h/poc-h.cpp:133 | a device clock exactly delta behind, with equal transit times both ways, gives the offset delta |
| ClockSync.DoubledMean | tools/dds/poc/h/poc-h.cpp:136-139 | feeding every offset twice leaves the exact mean of the offsets unchanged |
| ClockSync.CalcTimeOffset | tools/dds/poc/h/poc-h.cpp:93-157 | the first round trip is ignored; each later offset is fed twice in order; with two or more round trips min and max bound every later offset and are attained, and equal offsets give min == max; otherwise both stay 0 |
| ClockSync.TrackOffsets | tools/dds/poc/h/poc-h.cpp:100-150 | the same loop over the offsets themselves |
| StreamStats.FlagBitsDisjoint | tools/dds/poc/h/poc-h.cpp:28-34 | each stream flag owns a bit no other flag shares |
| StreamStats.AddFlag | tools/dds/poc/h/poc-h.cpp:48-51 | ORing one flag into a mask enables that stream and leaves every other stream's bit as it was |
| StreamStats.MaskStep | tools/dds/poc/h/poc-h.cpp:48-51 | appending one flag to the list enables that stream on top of the ones the shorter list enables |
| StreamStats.MaskOfEnables | tools/dds/poc/h/poc-h.cpp:48-51 | a mask ORed from a list of flags enables a stream exactly when the list names it |
| StreamStats.IsStreamEnabled | tools/dds/poc/h/poc-h.cpp:48-51 | a stream is enabled exactly when the mask holds its flag's bit, which needs a non-zero mask |
| StreamStats.DefaultMaskIsDepthOnly | tools/dds/poc/h/poc-h.cpp:169-170 | the default stream mask enables the depth stream and nothing else |
| StreamStats.ProcessFrame | tools/dds/poc/h/poc-h.cpp:263-289 | count goes up by one and the last number becomes the frame's even after a drop; a drop is counted exactly when frames were seen and the number is not the uint64 successor; the first frame sets min and max to its transit, later ones only widen them |
| StreamStats.FirstFrameIgnoresUninitialised | tools/dds/poc/h/poc-h.cpp:36-45 | the uninitialised `last_number`, min and max of a fresh stream do not affect the first frame's result |
| StreamStats.Replay | tools/dds/poc/h/poc-h.cpp:263-289 | frame by frame, the count grows by the number of frames, their transits are appended in order, and the last number is the last frame's |
| StreamStats.DropsIn | tools/dds/poc/h/poc-h.cpp:268-269 | the reference drop count: fewer than the frames, and zero exactly when every number is the uint64 successor of the one before |
| StreamStats.ReplayCounts | tools/dds/poc/h/poc-h.cpp:268-269 | after a run of frames, count is their number, drops is the number of breaks in consecutive numbering, and the last number is the last frame's |
| StreamStats.ReplayTransits | tools/dds/poc/h/poc-h.cpp:272-276 | every transit, received minus (sent plus offset), is fed in order, and the total is their sum |
| StreamStats.ReplayBounds | tools/dds/poc/h/poc-h.cpp:277-280 | min and max bound every transit and are among them |
| StreamStats.DropExamples | tools/dds/poc/h/poc-h.cpp:268-269 | 0,1,2 has no drop; 0,1,5,6 has one; a repeated number is a drop; 2^64-1 followed by 0 is not |
| StreamStats.ToolTransitIsRawLatency | tools/dds/poc/h/poc-h.cpp:218 | the tool's captured offset is 0, so its transit is reception time minus source time |

## Left out

- `main()` of the `poc-h` tool: command-line parsing, the logger, sleeping,
  subscribing to streams and printing statistics. It is I/O, so it is not
  modelled. The tool's default stream mask is kept (`StreamStats.DefaultMask`).
- The DDS writes and reads inside `calc_time_offset`. The round trips the
  device answers are the input list of `(t0, t1, t2, t3)` timestamps instead.
- `rsutils::number::running_average` is not part of this model. The model
  records the values fed to it, and states the exact mean in reals.
- The `first` and `last` wall-clock times of a stream: they are clock reads.
- The log lines that print statistics. Two of them name variables that are
  not in scope where they stand: `depth_data` at poc-h.cpp:60 is declared
  only later, inside `main` (poc-h.cpp:300), and `avg_time_offset` at
  poc-h.cpp:152 is not declared in that function.
- `StreamStats.ProcessFrame`: does not model the `int64` total of transits
  (poc-h.cpp:275), which is written but never read, so its overflow has no
  effect on anything the tool reports. It also does not model wrap-around of
  the `uint64` `count`, which would need 2^64 frames on one stream.
- `ClockSync.CalcTimeOffset`: the offsets are unbounded integers. The
  difference of two averages is not checked against `int64`.
- `context::context( char const * )` parses JSON text, and the
  `"device-mask"` setting is only read and logged. Neither is modelled.
- `on_device_changes` and the subscription machinery are not modelled.
  Subscribers are represented by the event log.
- The factories' own `query_devices` are not part of this model. They are a
  function parameter.
- `module_registry::foreach_registered` is a debugging iterator and is left
  out.
- `info_container::create_snapshot` copies the container and
  `enable_recording` does nothing. Both are left out.
- `RS2_CAMERA_INFO_COUNT` is not part of this model. It is the `count`
  parameter of `InfoContainer.Update`.
- `rsutils::json::get_ex` is not part of this model. It is taken to find a
  member exactly when the settings are an object holding that key
  (`Json.GetEx`).
- `RS2_PRODUCT_LINE_SW_ONLY` is 0x100. The value is inferred from the DDS
  example's description of 0x1fe as any-Intel plus software-only
  (`lib/rsdds/examples/rsdds-devices/rsdds-devices.cpp:57`).
- Thread safety and the process-wide static registry: the registry is passed
  explicitly.
