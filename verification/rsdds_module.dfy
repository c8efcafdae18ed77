/** `rsdds_module`: the context module that contributes the DDS device factory
    when its settings sub-tree allows it. */
module RsddsModule {
  import opened Results
  import opened Json
  import opened ContextModules

  /** The name the module is registered under, which is also its settings key. */
  const Name: string := "dds"

  /** `_settings` starts out as a default-constructed (null) JSON value. */
  datatype RsddsModule = RsddsModule(base: ModuleBase, settings: Json)

  function New(name: string): (r: Result<RsddsModule>)
    ensures r.Failure? <==> |name| == 0
    ensures r.Success? ==> r.value.base.name == name && !IsEnabled(r.value)
  {
    var base :- NewModuleBase(name);
    Success(RsddsModule(base, Null))
  }

  predicate IsEnabled(m: RsddsModule)
  {
    m.settings.Object?
  }

  /** Reads the sub-tree under the module's own name: a missing one means
      "enabled with defaults", a present one enables the module only when it is
      an object. The result is whether the module stays in the context. */
  function InitializeModule(m: RsddsModule, settings: Json): (r: (bool, RsddsModule))
    ensures r.1.base == m.base
    ensures r.0 == IsEnabled(r.1)
    ensures GetEx(settings, m.base.name).None? ==> r.1.settings == EmptyObject && r.0
    ensures GetEx(settings, m.base.name).Some? ==>
      r.1.settings == settings.members[m.base.name] && (r.0 <==> settings.members[m.base.name].Object?)
  {
    var sub := match GetEx(settings, m.base.name)
      case Some(v) => v
      case None => EmptyObject;
    var m' := m.(settings := sub);
    (IsEnabled(m'), m')
  }

  /** A disabled module refuses to make a factory; an enabled one makes the DDS
      device factory. */
  function CreateDeviceFactory(m: RsddsModule): (r: Result<DeviceFactory>)
    ensures r.Failure? <==> !IsEnabled(m)
    ensures r.Failure? ==> r.error == Runtime(m.base.name + " module is disabled")
    ensures r.Success? ==> r.value == DdsDeviceFactory
  {
    if !IsEnabled(m) then Failure(Runtime(m.base.name + " module is disabled")) else Success(DdsDeviceFactory)
  }
}
