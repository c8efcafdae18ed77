/** `librealsense::context`: the ordered list of device factories, the table of
    devices the user injected (held weakly), and the log of device-change
    notifications the context raised. */
module Context {
  import opened Results
  import opened Json
  import opened SortedMap
  import opened Sequences
  import StringOrder
  import opened ContextModules
  import opened ModuleClasses
  import ModuleRegistry
  import RsddsModule

  /** A `device_info` object; `id` tells apart two objects with the same address. */
  datatype Device = Device(address: string, id: nat)

  /** A `std::weak_ptr< device_info >`: whether someone still holds the device. */
  datatype Entry = Entry(dev: Device, alive: bool)

  /** One raise of `devices_changed`. */
  datatype Event = DevicesChanged(removed: seq<Device>, added: seq<Device>)

  datatype Context = Context(
    settings: Json,
    factories: seq<DeviceFactory>,
    modules: seq<Module>,
    userDevices: Table<Entry>,   // keyed by address
    log: seq<Event>)

  /** Every injected device is stored under its own address. */
  ghost predicate WellKeyed(m: map<string, Entry>)
  {
    forall k :: k in m ==> m[k].dev.address == k
  }

  // ------------------------------------------------------------ construction

  /** The factory a module would hand over if it made one. */
  function Offered(m: Module): DeviceFactory
  {
    match m
    case Rsdds(_) => DdsDeviceFactory
    case Other(base, _) => ModuleFactory(base.name)
  }

  function OfferedAll(ms: seq<Module>): (r: seq<DeviceFactory>)
    ensures |r| == |ms|
    ensures forall i :: 0 <= i < |ms| ==> r[i] == Offered(ms[i])
  {
    seq(|ms|, i requires 0 <= i < |ms| => Offered(ms[i]))
  }

  /** Some module throws from `create_device_factory`. */
  ghost predicate SomeFactoryThrows(ms: seq<Module>)
  {
    exists i :: 0 <= i < |ms| && CreateDeviceFactory(ms[i]).Failure?
  }

  /** The module hands back a (non-null) factory. */
  ghost predicate MakesFactory(m: Module)
  {
    CreateDeviceFactory(m).Success? && CreateDeviceFactory(m).value.Some?
  }

  /** 1 for each module that hands back a factory, 0 for the others. */
  ghost function MadeFlags(ms: seq<Module>): (r: seq<int>)
    ensures |r| == |ms|
  {
    seq(|ms|, i requires 0 <= i < |ms| => if MakesFactory(ms[i]) then 1 else 0)
  }

  /** How many modules hand back a factory, counted from the front. */
  lemma MadeCountCons(ms: seq<Module>)
    requires |ms| > 0
    ensures Sum(MadeFlags(ms)) == (if MakesFactory(ms[0]) then 1 else 0) + Sum(MadeFlags(ms[1..]))
  {
    assert MadeFlags(ms) == [if MakesFactory(ms[0]) then 1 else 0] + MadeFlags(ms[1..]);
    SumCons(if MakesFactory(ms[0]) then 1 else 0, MadeFlags(ms[1..]));
  }

  /** The constructor's loop over the modules: a null factory is skipped, an
      exception is not caught and ends the construction; every module that
      hands back a factory contributes its own entry. */
  function ModuleFactories(ms: seq<Module>): (r: Result<seq<DeviceFactory>>)
    ensures r.Failure? <==> SomeFactoryThrows(ms)
    ensures r.Success? ==> |r.value| == Sum(MadeFlags(ms))
    ensures r.Success? ==> IsSubsequence(r.value, OfferedAll(ms))
    ensures r.Success? ==> forall i :: 0 <= i < |ms| && CreateDeviceFactory(ms[i]).value.Some? ==>
      CreateDeviceFactory(ms[i]).value.value in r.value
    ensures r.Success? ==> forall f :: f in r.value ==>
      exists i :: 0 <= i < |ms| && CreateDeviceFactory(ms[i]) == Success(Some(f))
  {
    if |ms| == 0 then Success([])
    else
      assert forall i :: 1 <= i < |ms| ==> ms[i] == ms[1..][i - 1];
      assert OfferedAll(ms)[1..] == OfferedAll(ms[1..]);
      var first :- CreateDeviceFactory(ms[0]);
      var rest :- ModuleFactories(ms[1..]);
      MadeCountCons(ms);
      match first
      case None =>
        assert !MakesFactory(ms[0]);
        Success(rest)
      case Some(f) =>
        assert MakesFactory(ms[0]);
        assert ([f] + rest)[1..] == rest;
        Success([f] + rest)
  }

  /** `context::context( settings )`: the backend factory first, then the DDS
      factory when built with DDS, then the factories of the modules, in the
      order the registry created the modules. */
  function New(reg: ModuleRegistry.Registry, settings: Json, buildWithDds: bool): (r: Result<Context>)
    ensures r.Failure? <==> SomeFactoryThrows(ModuleRegistry.CreateContextModules(reg, settings))
    ensures r.Success? ==> r.value.modules == ModuleRegistry.CreateContextModules(reg, settings)
    ensures r.Success? ==> |r.value.factories| > 0 && r.value.factories[0] == BackendFactory
    ensures r.Success? && buildWithDds ==> |r.value.factories| > 1 && r.value.factories[1] == DdsDeviceFactory
    ensures r.Success? ==>
      |r.value.factories| <= 1 + (if buildWithDds then 1 else 0) + |r.value.modules|
    ensures r.Success? ==> ModuleFactories(r.value.modules).Success?
    ensures r.Success? ==>
      var builtIn := if buildWithDds then [BackendFactory, DdsDeviceFactory] else [BackendFactory];
      r.value.factories == builtIn + ModuleFactories(r.value.modules).value
    ensures r.Success? ==> r.value.userDevices == [] && r.value.log == [] && r.value.settings == settings
  {
    var modules := ModuleRegistry.CreateContextModules(reg, settings);
    var made := ModuleFactories(modules);
    if made.Failure? then Failure(made.error)
    else
    var fromModules := made.value;
    SubsequenceElements(fromModules, OfferedAll(modules));
    var builtIn := if buildWithDds then [BackendFactory, DdsDeviceFactory] else [BackendFactory];
    Success(Context(settings, builtIn + fromModules, modules, [], []))
  }

  /** With only the DDS module registered, as `REGISTER_RSCORE_MODULE` does,
      construction never fails, and the module appends the DDS factory after
      the built-in ones exactly when the settings have no "dds" member or an
      object there, whether or not the build also has DDS built in. */
  lemma DdsModuleFactory(settings: Json, buildWithDds: bool)
    ensures ModuleRegistry.Add([], RsddsModule.Name, RsddsClass).Success?
    ensures var reg := ModuleRegistry.Add([], RsddsModule.Name, RsddsClass).value.0;
      var ctx := New(reg, settings, buildWithDds);
      && ctx.Success?
      && var enabled := GetEx(settings, "dds").None? || GetEx(settings, "dds").value.Object?;
         var builtIn := if buildWithDds then [BackendFactory, DdsDeviceFactory] else [BackendFactory];
         ctx.value.factories == builtIn + (if enabled then [DdsDeviceFactory] else [])
  {
    var reg := ModuleRegistry.Add([], RsddsModule.Name, RsddsClass).value.0;
    assert reg == [Pair(RsddsModule.Name, RsddsClass)];
    DdsOnlyModules(settings);
    var modules := ModuleRegistry.CreateContextModules(reg, settings);
    if |modules| == 1 {
      assert ModuleFactories(modules[1..]) == Success([]);
    }
  }

  /** The modules that a registry holding only the DDS module sets up: the
      enabled DDS module, or nothing when its settings disable it. */
  lemma DdsOnlyModules(settings: Json)
    ensures var ms := ModuleRegistry.CreateContextModules([Pair(RsddsModule.Name, RsddsClass)], settings);
      var enabled := GetEx(settings, "dds").None? || GetEx(settings, "dds").value.Object?;
      && (|ms| == 1 <==> enabled)
      && (|ms| != 1 ==> ms == [])
      && (|ms| == 1 ==> ms[0].Rsdds? && RsddsModule.IsEnabled(ms[0].dds))
  {
    var reg := [Pair(RsddsModule.Name, RsddsClass)];
    assert ModuleRegistry.CreateContextModules(reg[1..], settings) == [];
  }

  // --------------------------------------------------------- change events

  /** `invoke_devices_changed_callbacks`: every factory's callback and the
      user-device calls end up here. */
  function Notify(ctx: Context, removed: seq<Device>, added: seq<Device>): (r: Context)
    ensures r.log == ctx.log + [DevicesChanged(removed, added)]
    ensures r.(log := ctx.log) == ctx
  {
    ctx.(log := ctx.log + [DevicesChanged(removed, added)])
  }

  // ------------------------------------------------------------ user devices

  /** `context::add_device`: refused while a live device holds the address;
      otherwise stored (over an expired entry, if any) and announced alone. */
  function AddDevice(ctx: Context, dev: Device): (r: Result<Context>)
    ensures var t := View(ctx.userDevices);
      r.Failure? <==> dev.address in t && t[dev.address].alive
    ensures r.Failure? ==> r.error == InvalidValue("device already in context: " + dev.address)
    ensures r.Success? ==> View(r.value.userDevices) == View(ctx.userDevices)[dev.address := Entry(dev, true)]
    ensures r.Success? ==> r.value.log == ctx.log + [DevicesChanged([], [dev])]
    ensures r.Success? ==> r.value.(userDevices := ctx.userDevices, log := ctx.log) == ctx
    ensures r.Success? && WellKeyed(View(ctx.userDevices)) ==> WellKeyed(View(r.value.userDevices))
  {
    var found := Find(ctx.userDevices, dev.address);
    if found.Some? && found.value.alive then
      Failure(InvalidValue("device already in context: " + dev.address))
    else
      var ctx' := ctx.(userDevices := Put(ctx.userDevices, dev.address, Entry(dev, true)));
      Success(Notify(ctx', [], [dev]))
  }

  /** `context::remove_device`: an unknown address is ignored; a known one is
      erased, and announced as removed (with the stored device) only when that
      device was still alive. */
  function RemoveDevice(ctx: Context, dev: Device): (r: Context)
    ensures dev.address !in View(ctx.userDevices) ==> r == ctx
    ensures dev.address in View(ctx.userDevices) ==>
      && View(r.userDevices) == View(ctx.userDevices) - {dev.address}
      && var stored := View(ctx.userDevices)[dev.address];
         r.log == ctx.log + if stored.alive then [DevicesChanged([stored.dev], [])] else []
    ensures r.(userDevices := ctx.userDevices, log := ctx.log) == ctx
    ensures WellKeyed(View(ctx.userDevices)) ==> WellKeyed(View(r.userDevices))
  {
    match Find(ctx.userDevices, dev.address)
    case None => ctx
    case Some(e) =>
      var ctx' := ctx.(userDevices := Erase(ctx.userDevices, dev.address));
      if e.alive then Notify(ctx', [e.dev], []) else ctx'
  }

  /** The last strong reference to `dev` goes away, so its weak entry expires.
      This is not a call into the context; it stands for what the owner does. */
  function ReleaseDevice(ctx: Context, dev: Device): (r: Context)
    ensures var t := View(ctx.userDevices);
      View(r.userDevices) ==
        if dev.address in t && t[dev.address].dev == dev then t[dev.address := Entry(dev, false)] else t
    ensures r.(userDevices := ctx.userDevices) == ctx
    ensures WellKeyed(View(ctx.userDevices)) ==> WellKeyed(View(r.userDevices))
  {
    var found := Find(ctx.userDevices, dev.address);
    if found.Some? && found.value.dev == dev then
      ctx.(userDevices := Put(ctx.userDevices, dev.address, Entry(dev, false)))
    else ctx
  }

  /** Adding a fresh device and removing it raises exactly an "added" and a
      "removed" notification and restores the table; removing it once more
      changes nothing. */
  lemma AddThenRemove(ctx: Context, dev: Device)
    requires dev.address !in View(ctx.userDevices)
    ensures AddDevice(ctx, dev).Success?
    ensures var c1 := AddDevice(ctx, dev).value;
      var c2 := RemoveDevice(c1, dev);
      && c2.log == ctx.log + [DevicesChanged([], [dev]), DevicesChanged([dev], [])]
      && View(c2.userDevices) == View(ctx.userDevices)
      && RemoveDevice(c2, dev) == c2
  {
  }

  // ------------------------------------------------------------------ query

  /** Some factory of `fs` enumerates `d`. */
  ghost predicate Enumerated(fs: seq<DeviceFactory>, mask: int, enumerate: (DeviceFactory, int) -> seq<Device>, d: Device)
  {
    exists i :: 0 <= i < |fs| && d in enumerate(fs[i], mask)
  }

  /** The table holds `d` alive under some address. */
  ghost predicate LiveInjected(t: map<string, Entry>, d: Device)
  {
    exists k :: k in t && t[k] == Entry(d, true)
  }

  /** The concatenation, factory by factory, of what each factory enumerates. */
  function FactoryDevices(fs: seq<DeviceFactory>, mask: int, enumerate: (DeviceFactory, int) -> seq<Device>): (r: seq<Device>)
    ensures forall d :: d in r <==> Enumerated(fs, mask, enumerate, d)
  {
    if |fs| == 0 then []
    else
      assert forall i :: 1 <= i < |fs| ==> fs[i] == fs[1..][i - 1];
      enumerate(fs[0], mask) + FactoryDevices(fs[1..], mask, enumerate)
  }

  lemma {:induction false} FactoryDevicesAppend(a: seq<DeviceFactory>, b: seq<DeviceFactory>, mask: int,
                                                enumerate: (DeviceFactory, int) -> seq<Device>)
    ensures FactoryDevices(a + b, mask, enumerate) == FactoryDevices(a, mask, enumerate) + FactoryDevices(b, mask, enumerate)
  {
    if |a| > 0 {
      assert (a + b)[1..] == a[1..] + b;
      FactoryDevicesAppend(a[1..], b, mask, enumerate);
    } else {
      assert a + b == b;
    }
  }

  /** The injected devices still alive, in address order. */
  function LiveUserDevices(t: seq<Pair<Entry>>): (r: seq<Device>)
    ensures |r| <= |t|
    ensures forall d :: d in r <==> exists i :: 0 <= i < |t| && t[i].value == Entry(d, true)
    ensures IsSubsequence(r, DevicesOf(t))
  {
    if |t| == 0 then []
    else
      assert forall i :: 1 <= i < |t| ==> t[i] == t[1..][i - 1];
      assert DevicesOf(t)[1..] == DevicesOf(t[1..]);
      var rest := LiveUserDevices(t[1..]);
      if t[0].value.alive then
        assert ([t[0].value.dev] + rest)[1..] == rest;
        [t[0].value.dev] + rest
      else rest
  }

  function DevicesOf(t: seq<Pair<Entry>>): (r: seq<Device>)
    ensures |r| == |t|
    ensures forall i :: 0 <= i < |t| ==> r[i] == t[i].value.dev
  {
    seq(|t|, i requires 0 <= i < |t| => t[i].value.dev)
  }

  /** `context::query_devices`: every factory's devices in factory order, then
      the live injected devices. Nothing is de-duplicated, and the mask is
      passed to the factories as given. */
  function QueryDevices(ctx: Context, mask: int, enumerate: (DeviceFactory, int) -> seq<Device>): (r: seq<Device>)
    ensures forall d :: d in r <==>
      Enumerated(ctx.factories, mask, enumerate, d) || LiveInjected(View(ctx.userDevices), d)
  {
    var fromFactories := FactoryDevices(ctx.factories, mask, enumerate);
    var users := LiveUserDevices(ctx.userDevices);
    LiveUserDevicesOfView(ctx.userDevices);
    fromFactories + users
  }

  /** The result starts with the devices of the first `k` factories, in
      factory order; with `k == 1`, the backend's devices come first. */
  lemma QueryInFactoryOrder(ctx: Context, mask: int, enumerate: (DeviceFactory, int) -> seq<Device>, k: nat)
    requires k <= |ctx.factories|
    ensures var front := FactoryDevices(ctx.factories[..k], mask, enumerate);
      var r := QueryDevices(ctx, mask, enumerate);
      |front| <= |r| && r[..|front|] == front
    ensures |ctx.factories| > 0 ==>
      var first := enumerate(ctx.factories[0], mask);
      var r := QueryDevices(ctx, mask, enumerate);
      |first| <= |r| && r[..|first|] == first
  {
    var fs := ctx.factories;
    FactoryDevicesAppend(fs[..k], fs[k..], mask, enumerate);
    assert fs[..k] + fs[k..] == fs;
    if |fs| > 0 {
      FactoryDevicesAppend([fs[0]], fs[1..], mask, enumerate);
      assert [fs[0]] + fs[1..] == fs;
    }
  }

  lemma LiveUserDevicesOfView(t: Table<Entry>)
    ensures forall d :: d in LiveUserDevices(t) <==> LiveInjected(View(t), d)
  {
    ViewDomain(t);
    ViewValues(t);
    forall d | d in LiveUserDevices(t)
      ensures LiveInjected(View(t), d)
    {
      var i :| 0 <= i < |t| && t[i].value == Entry(d, true);
      assert View(t)[t[i].key] == Entry(d, true);
    }
    forall d | LiveInjected(View(t), d)
      ensures d in LiveUserDevices(t)
    {
      var k :| k in View(t) && View(t)[k] == Entry(d, true);
      var i :| 0 <= i < |t| && t[i].key == k;
      assert t[i].value == Entry(d, true);
    }
  }

  /** The injected devices come out in strictly increasing address order. */
  lemma LiveUserDevicesInAddressOrder(ctx: Context)
    requires WellKeyed(View(ctx.userDevices))
    ensures var r := LiveUserDevices(ctx.userDevices);
      forall i, j :: 0 <= i < j < |r| ==> StringOrder.Less(r[i].address, r[j].address)
  {
    var t := ctx.userDevices;
    ViewValues(t);
    var addrs := seq(|t|, i requires 0 <= i < |t| => t[i].value.dev.address);
    assert forall i :: 0 <= i < |t| ==> addrs[i] == t[i].key;
    LiveAddresses(t);
    SubsequenceIncreasing(AddressesOf(LiveUserDevices(t)), addrs);
  }

  function AddressesOf(ds: seq<Device>): (r: seq<string>)
    ensures |r| == |ds|
    ensures forall i :: 0 <= i < |ds| ==> r[i] == ds[i].address
  {
    seq(|ds|, i requires 0 <= i < |ds| => ds[i].address)
  }

  lemma {:induction false} LiveAddresses(t: seq<Pair<Entry>>)
    ensures IsSubsequence(AddressesOf(LiveUserDevices(t)),
                          seq(|t|, i requires 0 <= i < |t| => t[i].value.dev.address))
  {
    var all := seq(|t|, i requires 0 <= i < |t| => t[i].value.dev.address);
    if |t| > 0 {
      LiveAddresses(t[1..]);
      assert all[1..] == seq(|t[1..]|, i requires 0 <= i < |t[1..]| => t[1..][i].value.dev.address);
      var rest := LiveUserDevices(t[1..]);
      if t[0].value.alive {
        assert AddressesOf([t[0].value.dev] + rest)[1..] == AddressesOf(rest);
      }
    }
  }

  /** Two factories that both see a device both report it. */
  lemma QueryKeepsDuplicates(ctx: Context, d: Device)
    requires ctx.factories == [BackendFactory, DdsDeviceFactory] && ctx.userDevices == []
    ensures QueryDevices(ctx, 0x1fe, (f, mask) => [d]) == [d, d]
  {
    var e := (f: DeviceFactory, mask: int) => [d];
    assert ctx.factories[1..] == [DdsDeviceFactory];
    assert FactoryDevices([DdsDeviceFactory], 0x1fe, e) == [d];
    assert FactoryDevices(ctx.factories, 0x1fe, e) == [d, d];
  }

  /** After the factories' devices come exactly the live injected ones, in
      table order; nothing is dropped or merged on the way. */
  lemma QueryParts(ctx: Context, mask: int, enumerate: (DeviceFactory, int) -> seq<Device>)
    ensures var front := FactoryDevices(ctx.factories, mask, enumerate);
      var r := QueryDevices(ctx, mask, enumerate);
      && |r| == |front| + |LiveUserDevices(ctx.userDevices)|
      && r[..|front|] == front
      && r[|front|..] == LiveUserDevices(ctx.userDevices)
  {
  }

  /** The injected devices at the end of a query come in increasing address
      order on every context whose table is keyed by address. */
  lemma QueryTailInAddressOrder(ctx: Context, mask: int, enumerate: (DeviceFactory, int) -> seq<Device>)
    requires WellKeyed(View(ctx.userDevices))
    ensures var r := QueryDevices(ctx, mask, enumerate);
      var tail := r[|FactoryDevices(ctx.factories, mask, enumerate)|..];
      forall i, j :: 0 <= i < j < |tail| ==> StringOrder.Less(tail[i].address, tail[j].address)
  {
    QueryParts(ctx, mask, enumerate);
    LiveUserDevicesInAddressOrder(ctx);
  }

  /** How many devices each factory reports. */
  function Counts(fs: seq<DeviceFactory>, mask: int, enumerate: (DeviceFactory, int) -> seq<Device>): (r: seq<int>)
    ensures |r| == |fs|
    ensures forall i :: 0 <= i < |fs| ==> r[i] == |enumerate(fs[i], mask)|
  {
    seq(|fs|, i requires 0 <= i < |fs| => |enumerate(fs[i], mask)|)
  }

  /** The factories' part of a query is as long as all their lists together. */
  lemma {:induction false} FactoryDevicesLength(fs: seq<DeviceFactory>, mask: int, enumerate: (DeviceFactory, int) -> seq<Device>)
    ensures |FactoryDevices(fs, mask, enumerate)| == Sum(Counts(fs, mask, enumerate))
  {
    if |fs| > 0 {
      FactoryDevicesLength(fs[1..], mask, enumerate);
      assert Counts(fs, mask, enumerate) == [|enumerate(fs[0], mask)|] + Counts(fs[1..], mask, enumerate);
      SumCons(|enumerate(fs[0], mask)|, Counts(fs[1..], mask, enumerate));
    }
  }

  /** Every device a factory reports is in the factories' part, as often as
      that factory reports it. */
  lemma {:induction false} FactoryDevicesKeeps(fs: seq<DeviceFactory>, mask: int, enumerate: (DeviceFactory, int) -> seq<Device>, i: int)
    requires 0 <= i < |fs|
    ensures multiset(enumerate(fs[i], mask)) <= multiset(FactoryDevices(fs, mask, enumerate))
  {
    if i > 0 {
      FactoryDevicesKeeps(fs[1..], mask, enumerate, i - 1);
    }
  }

  /** Two factories reporting the same device both contribute it: the query
      does not de-duplicate. */
  lemma {:induction false} QueryKeepsEveryReport(ctx: Context, mask: int, enumerate: (DeviceFactory, int) -> seq<Device>, i: int, j: int)
    requires 0 <= i < j < |ctx.factories|
    ensures multiset(enumerate(ctx.factories[i], mask)) + multiset(enumerate(ctx.factories[j], mask))
        <= multiset(QueryDevices(ctx, mask, enumerate))
  {
    TwoFactories(ctx.factories, mask, enumerate, i, j);
  }

  lemma {:induction false} TwoFactories(fs: seq<DeviceFactory>, mask: int, enumerate: (DeviceFactory, int) -> seq<Device>, i: int, j: int)
    requires 0 <= i < j < |fs|
    ensures multiset(enumerate(fs[i], mask)) + multiset(enumerate(fs[j], mask)) <= multiset(FactoryDevices(fs, mask, enumerate))
  {
    if i == 0 {
      FactoryDevicesKeeps(fs[1..], mask, enumerate, j - 1);
    } else {
      TwoFactories(fs[1..], mask, enumerate, i - 1, j - 1);
    }
  }
}
