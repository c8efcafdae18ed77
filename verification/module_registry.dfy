/** `module_registry`: the process-wide table from module name to module class,
    and the per-context instantiation of every registered module. */
module ModuleRegistry {
  import opened Results
  import opened Json
  import opened SortedMap
  import opened Sequences
  import StringOrder
  import opened ModuleClasses

  /** The registry, iterated in name order. */
  type Registry = Table<ModuleClass>

  /** `module_registry::add< T >( name )`: registers a new name and returns the
      registry's new size; a name already registered is an error and leaves
      the registry as it was. */
  function Add(reg: Registry, name: string, cls: ModuleClass): (r: Result<(Registry, nat)>)
    ensures r.Failure? <==> name in View(reg)
    ensures r.Failure? ==> r.error == Runtime("duplicate module '" + name + "' registered")
    ensures r.Success? ==> View(r.value.0) == View(reg)[name := cls]
    ensures r.Success? ==> r.value.1 == |r.value.0| == |reg| + 1
  {
    var (reg', inserted) := Emplace(reg, name, cls);
    if !inserted then Failure(Runtime("duplicate module '" + name + "' registered"))
    else Success((reg', |reg'|))
  }

  /** No name appears twice in the list, and none is registered already. */
  ghost predicate FreshDistinctNames(reg: Registry, entries: seq<Pair<ModuleClass>>)
  {
    && (forall i, j :: 0 <= i < j < |entries| ==> entries[i].key != entries[j].key)
    && (forall i :: 0 <= i < |entries| ==> entries[i].key !in View(reg))
  }

  /** Static registration of several modules, one `add` after the other; the
      sizes returned along the way. Every registration succeeds exactly when
      the names are distinct and new. */
  function AddAll(reg: Registry, entries: seq<Pair<ModuleClass>>): (r: Result<(Registry, seq<nat>)>)
    decreases |entries|
    ensures r.Success? <==> FreshDistinctNames(reg, entries)
    ensures r.Success? ==> forall k :: k in View(reg) ==> k in View(r.value.0)
    ensures r.Success? ==> |r.value.1| == |entries| && |r.value.0| == |reg| + |entries|
    ensures r.Success? ==> forall i :: 0 <= i < |entries| ==> r.value.1[i] == |reg| + i + 1
    ensures r.Success? ==> forall i :: 0 <= i < |entries| ==> entries[i].key in View(r.value.0)
    ensures r.Success? ==> forall i :: 0 <= i < |entries| ==> entries[i].key !in View(reg)
  {
    if |entries| == 0 then Success((reg, []))
    else
      match Add(reg, entries[0].key, entries[0].value)
      case Failure(e) => Failure(e)
      case Success((reg1, size)) =>
        FreshDistinctNamesCons(reg, reg1, entries);
        var (reg2, sizes) :- AddAll(reg1, entries[1..]);
        Success((reg2, [size] + sizes))
  }

  /** The names are distinct and new exactly when the first is new and the
      rest are distinct and new to the registry that holds the first. */
  lemma FreshDistinctNamesCons(reg: Registry, reg1: Registry, entries: seq<Pair<ModuleClass>>)
    requires |entries| > 0 && View(reg1) == View(reg)[entries[0].key := entries[0].value]
    ensures FreshDistinctNames(reg, entries) <==>
      entries[0].key !in View(reg) && FreshDistinctNames(reg1, entries[1..])
  {
    var rest := entries[1..];
    assert forall i :: 0 <= i < |rest| ==> rest[i] == entries[i + 1];
    if entries[0].key !in View(reg) && FreshDistinctNames(reg1, rest) {
      forall i, j | 0 <= i < j < |entries|
        ensures entries[i].key != entries[j].key
      {
        if i > 0 {
          assert rest[i - 1] == entries[i] && rest[j - 1] == entries[j];
        } else {
          assert rest[j - 1] == entries[j];
        }
      }
      forall i | 0 <= i < |entries|
        ensures entries[i].key !in View(reg)
      {
        if i > 0 {
          assert rest[i - 1] == entries[i];
        }
      }
    }
  }

  /** Registering the same name twice, however far apart, fails. */
  lemma {:induction false} AddAllRejectsRepeat(reg: Registry, entries: seq<Pair<ModuleClass>>, i: nat, j: nat)
    requires i < j < |entries| && entries[i].key == entries[j].key
    ensures AddAll(reg, entries).Failure?
    decreases |entries|
  {
    if i > 0 {
      match Add(reg, entries[0].key, entries[0].value)
      case Failure(_) =>
      case Success((reg1, _)) =>
        AddAllRejectsRepeat(reg1, entries[1..], i - 1, j - 1);
    } else {
      match Add(reg, entries[0].key, entries[0].value)
      case Failure(_) =>
      case Success((reg1, _)) =>
        assert entries[1..][j - 1].key == entries[0].key;
    }
  }

  /** The creation function `add` stores: a constructor exception becomes a
      null module instead of propagating. */
  function Instantiate(name: string, cls: ModuleClass): (r: Option<Module>)
    ensures r.None? <==> Construct(cls, name).Failure?
    ensures |name| == 0 ==> r.None?
    ensures r.Some? ==> r.value.Name() == name
  {
    match Construct(cls, name)
    case Success(m) => Some(m)
    case Failure(_) => None
  }

  /** One step of `create_context_modules`: the module when it was constructed
      and `initialize_module` returned true; nothing otherwise. */
  function Setup(name: string, cls: ModuleClass, settings: Json): (r: Option<Module>)
    ensures Instantiate(name, cls).None? ==> r.None?
    ensures r.Some? <==>
      && Instantiate(name, cls).Some?
      && var init := InitializeModule(Instantiate(name, cls).value, settings);
         init.Success? && init.value.0
    ensures r.Some? ==> r.value.Name() == name
  {
    match Instantiate(name, cls)
    case None => None
    case Some(m) =>
      match InitializeModule(m, settings)
      case Failure(_) => None
      case Success((keep, m')) => if keep then Some(m') else None
  }

  function Names(ms: seq<Module>): (ns: seq<string>)
    ensures |ns| == |ms|
    ensures forall i :: 0 <= i < |ms| ==> ns[i] == ms[i].Name()
  {
    seq(|ms|, i requires 0 <= i < |ms| => ms[i].Name())
  }

  /** `module_registry::create_context_modules`: visits the registry in name
      order and keeps, in that order, the modules that were set up. */
  function CreateContextModules(reg: seq<Pair<ModuleClass>>, settings: Json): (r: seq<Module>)
    ensures |r| <= |reg|
    ensures IsSubsequence(Names(r), Keys(reg))
  {
    if |reg| == 0 then []
    else
      var rest := CreateContextModules(reg[1..], settings);
      assert Keys(reg)[1..] == Keys(reg[1..]);
      match Setup(reg[0].key, reg[0].value, settings)
      case None => rest
      case Some(m) =>
        assert Names([m] + rest)[1..] == Names(rest);
        [m] + rest
  }

  /** Every entry that was set up is in the result, and everything in the
      result is the set-up module of some entry: a failure of one entry drops
      that entry only. */
  lemma {:induction false} CreatedModulesAreTheSetUpOnes(reg: seq<Pair<ModuleClass>>, settings: Json)
    ensures forall i :: 0 <= i < |reg| && Setup(reg[i].key, reg[i].value, settings).Some? ==>
      Setup(reg[i].key, reg[i].value, settings).value in CreateContextModules(reg, settings)
    ensures forall m :: m in CreateContextModules(reg, settings) ==>
      exists i :: 0 <= i < |reg| && Setup(reg[i].key, reg[i].value, settings) == Some(m)
  {
    if |reg| > 0 {
      CreatedModulesAreTheSetUpOnes(reg[1..], settings);
      assert forall i :: 1 <= i < |reg| ==> reg[i] == reg[1..][i - 1];
      var r := CreateContextModules(reg, settings);
      var rest := CreateContextModules(reg[1..], settings);
      forall m | m in r
        ensures exists i :: 0 <= i < |reg| && Setup(reg[i].key, reg[i].value, settings) == Some(m)
      {
        if m !in rest {
          assert Setup(reg[0].key, reg[0].value, settings) == Some(m);
        } else {
          var i :| 0 <= i < |reg[1..]| && Setup(reg[1..][i].key, reg[1..][i].value, settings) == Some(m);
          assert reg[i + 1] == reg[1..][i];
        }
      }
    }
  }

  /** The modules of a context come out in name order, one per name at most,
      and a registered name is among them exactly when its module was
      constructed and accepted initialisation. */
  lemma CreatedModulesInNameOrder(reg: Registry, settings: Json)
    ensures StrictlyIncreasing(Names(CreateContextModules(reg, settings)))
    ensures forall name :: name in View(reg) ==>
      (name in Names(CreateContextModules(reg, settings)) <==> Setup(name, View(reg)[name], settings).Some?)
  {
    var r := CreateContextModules(reg, settings);
    SubsequenceIncreasing(Names(r), Keys(reg));
    CreatedModulesAreTheSetUpOnes(reg, settings);
    ViewValues(reg);
    ViewDomain(reg);
    forall name | name in View(reg)
      ensures name in Names(r) <==> Setup(name, View(reg)[name], settings).Some?
    {
      var i :| 0 <= i < |reg| && reg[i].key == name;
      if name in Names(r) {
        var j :| 0 <= j < |r| && Names(r)[j] == name;
        assert r[j] in r;
        var i' :| 0 <= i' < |reg| && Setup(reg[i'].key, reg[i'].value, settings) == Some(r[j]);
        if i' != i {
          StringOrder.Irreflexive(name);
        }
      }
    }
  }
}
