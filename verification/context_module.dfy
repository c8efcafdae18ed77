/** The base class every context module derives from, and what it can hand
    back to the context: a device factory, or none. */
module ContextModules {
  import opened Results

  /** The device factories a context can hold. */
  datatype DeviceFactory =
    | BackendFactory                    // the local hardware backend, always first
    | DdsDeviceFactory                  // `rsdds_device_factory`
    | ModuleFactory(owner: string)      // a factory of some other module, by module name

  /** The state held by `context_module` itself. */
  datatype ModuleBase = ModuleBase(name: string)

  /** The `context_module` constructor: an empty name throws, any other name is
      kept as given. */
  function NewModuleBase(name: string): (r: Result<ModuleBase>)
    ensures r.Failure? <==> |name| == 0
    ensures r.Failure? ==> r.error == Runtime("empty context module name")
    ensures r.Success? ==> r.value.name == name
  {
    if |name| == 0 then Failure(Runtime("empty context module name")) else Success(ModuleBase(name))
  }
}
