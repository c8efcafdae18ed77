/** The context-module class hierarchy as a tagged variant: the DDS module
    whose code is known, and any other module class described only by how its
    constructor, `initialize_module` and `create_device_factory` behave. */
module ModuleClasses {
  import opened Results
  import opened Json
  import opened ContextModules
  import RsddsModule

  datatype InitBehaviour = Accepts | Declines | InitThrows
  datatype FactoryBehaviour = MakesFactory | MakesNone | FactoryThrows

  /** How a module class whose code is not part of this model behaves. */
  datatype Behaviour = Behaviour(ctorThrows: bool, init: InitBehaviour, factory: FactoryBehaviour)

  /** What `module_registry::add< T >` records for a class `T`. */
  datatype ModuleClass =
    | RsddsClass
    | OtherClass(behaviour: Behaviour)

  /** A constructed module of one of the classes. */
  datatype Module =
    | Rsdds(dds: RsddsModule.RsddsModule)
    | Other(base: ModuleBase, behaviour: Behaviour)
  {
    function Name(): string
    {
      match this
      case Rsdds(d) => d.base.name
      case Other(b, _) => b.name
    }
  }

  /** `std::make_shared< T >( name, ctx )`: the base constructor rejects an
      empty name before the derived constructor runs. */
  function Construct(cls: ModuleClass, name: string): (r: Result<Module>)
    ensures |name| == 0 ==> r.Failure?
    ensures r.Success? ==> r.value.Name() == name
    ensures cls.RsddsClass? ==> (r.Success? <==> |name| > 0)
    ensures cls.OtherClass? ==> (r.Success? <==> |name| > 0 && !cls.behaviour.ctorThrows)
  {
    match cls
    case RsddsClass =>
      var d :- RsddsModule.New(name);
      Success(Rsdds(d))
    case OtherClass(b) =>
      var base :- NewModuleBase(name);
      if b.ctorThrows then Failure(Runtime("failed to construct '" + name + "'")) else Success(Other(base, b))
  }

  /** The virtual `initialize_module`: whether the module stays in the
      context, with the state it keeps; or the exception it threw. */
  function InitializeModule(m: Module, settings: Json): (r: Result<(bool, Module)>)
    ensures r.Success? ==> r.value.1.Name() == m.Name()
    ensures m.Rsdds? ==>
      var (keep, d) := RsddsModule.InitializeModule(m.dds, settings);
      r == Success((keep, Rsdds(d)))
    ensures m.Other? ==> (r.Failure? <==> m.behaviour.init == InitThrows)
    ensures m.Other? && r.Success? ==> r.value == (m.behaviour.init == Accepts, m)
  {
    match m
    case Rsdds(d) =>
      var (keep, d') := RsddsModule.InitializeModule(d, settings);
      Success((keep, Rsdds(d')))
    case Other(base, b) =>
      match b.init
      case Accepts => Success((true, m))
      case Declines => Success((false, m))
      case InitThrows => Failure(Runtime("failed to initialize '" + base.name + "'"))
  }

  /** The virtual `create_device_factory`: a factory, none, or an exception. */
  function CreateDeviceFactory(m: Module): (r: Result<Option<DeviceFactory>>)
    ensures m.Rsdds? ==> (r.Failure? <==> !RsddsModule.IsEnabled(m.dds))
    ensures m.Rsdds? && r.Success? ==> r.value == Some(DdsDeviceFactory)
    ensures m.Other? ==> (r.Failure? <==> m.behaviour.factory == FactoryThrows)
    ensures m.Other? && r.Success? ==>
      r.value == if m.behaviour.factory == MakesFactory then Some(ModuleFactory(m.Name())) else None
  {
    match m
    case Rsdds(d) =>
      var f :- RsddsModule.CreateDeviceFactory(d);
      Success(Some(f))
    case Other(base, b) =>
      match b.factory
      case MakesFactory => Success(Some(ModuleFactory(base.name)))
      case MakesNone => Success(None)
      case FactoryThrows => Failure(Runtime("failed to create a device factory for '" + base.name + "'"))
  }
}
