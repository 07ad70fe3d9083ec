/**
 * What each registry operation computes, as functions of the table it sees:
 * dependency validation (`parseDeps`), the factory's argument list, the
 * merge of a factory's return value (`extend`), one module build (`build`)
 * and the dispatch of `define`. The `Registry` class in module Cmd is proved
 * to follow these definitions.
 */
module Semantics {
  import opened Values
  import opened DepList

  /** Every id of `ids` is a key of the table. */
  predicate AllLoaded(ids: seq<string>, mods: Table)
  {
    forall i | 0 <= i < |ids| :: ids[i] in mods
  }

  /** `AllLoaded` on a prefix, stated position by position. */
  lemma PrefixLoaded(ids: seq<string>, mods: Table, n: nat)
    requires n <= |ids|
    ensures AllLoaded(ids[..n], mods) <==> forall j | 0 <= j < n :: ids[j] in mods
  {
    forall j | 0 <= j < n ensures ids[..n][j] == ids[j] {
    }
  }

  /** The position of the first id of `ids` that is not registered. */
  function FirstMissing(ids: seq<string>, mods: Table): (k: nat)
    requires !AllLoaded(ids, mods)
    ensures k < |ids| && ids[k] !in mods && AllLoaded(ids[..k], mods)
  {
    if ids[0] !in mods then 0
    else
      assert !AllLoaded(ids[1..], mods) by {
        var i :| 0 <= i < |ids| && ids[i] !in mods;
        assert ids[1..][i - 1] == ids[i];
      }
      var k := FirstMissing(ids[1..], mods);
      assert ids[..k + 1] == [ids[0]] + ids[1..][..k];
      k + 1
  }

  /** A missing id at `k` behind a fully registered prefix is the first missing one. */
  lemma FirstMissingAt(ids: seq<string>, mods: Table, k: nat)
    requires k < |ids| && ids[k] !in mods && AllLoaded(ids[..k], mods)
    ensures !AllLoaded(ids, mods) && FirstMissing(ids, mods) == k
  {
  }

  /** What `parseDeps(deps)` returns or throws against the table `mods`. */
  function ValidateDeps(deps: seq<string>, mods: Table): (r: Result<seq<string>>)
    ensures r.Ok? <==> AllLoaded(deps, mods)
    ensures r.Ok? ==> r.value == Dedup(deps)
    ensures r.Ok? ==> Distinct(r.value)
    ensures r.Ok? ==> forall d :: d in r.value <==> d in deps
    ensures r.Ok? ==> InFirstOccurrenceOrder(deps, r.value)
    ensures r.Ok? ==> AllLoaded(r.value, mods)
    ensures r.Err? ==> r.error == DepNotLoaded(deps[FirstMissing(deps, mods)])
  {
    DedupElements(deps);
    DedupDistinct(deps);
    DedupFirstOccurrenceOrder(deps);
    if AllLoaded(deps, mods) then
      assert forall d | d in Dedup(deps) :: d in mods by {
        forall d | d in Dedup(deps) ensures d in mods {
          var i :| 0 <= i < |deps| && deps[i] == d;
        }
      }
      Ok(Dedup(deps))
    else
      Err(DepNotLoaded(deps[FirstMissing(deps, mods)]))
  }

  /** The dependency ids a descriptor declares; none when it has no `deps` key. */
  function DeclaredDeps(desc: Descriptor): seq<string>
  {
    match desc.deps
    case Some(ds) => ds
    case None => []
  }

  /** Every declared dependency of `desc` is registered. */
  predicate DepsLoaded(desc: Descriptor, mods: Table)
  {
    AllLoaded(DeclaredDeps(desc), mods)
  }

  /** `module.deps.map(getExport)`: the exports of each dependency, in order. */
  function DepArgs(deps: seq<string>, mods: Table): (args: seq<Arg>)
    requires AllLoaded(deps, mods)
    ensures |args| == |deps|
    ensures forall i | 0 <= i < |deps| :: args[i] == Export(mods[deps[i]].exports)
  {
    if deps == [] then []
    else
      assert AllLoaded(deps[1..], mods) by {
        forall i | 0 <= i < |deps| - 1 ensures deps[1..][i] in mods {
          assert deps[1..][i] == deps[i + 1];
        }
      }
      [Export(mods[deps[0]].exports)] + DepArgs(deps[1..], mods)
  }

  /** The argument list `build` applies the factory to: `require`, the fresh
      empty exports object and the descriptor, then one dependency's exports per
      declared dependency. */
  function FactoryArgs(desc: Descriptor, mods: Table): (args: seq<Arg>)
    requires DepsLoaded(desc, mods)
    ensures |args| == 3 + |DeclaredDeps(desc)|
    ensures desc.deps.None? ==> |args| == 3
    ensures args[0] == RequireFn && args[1] == ExportsObj(map[]) && args[2] == ModuleObj(desc.id, desc.deps)
    ensures forall i | 0 <= i < |DeclaredDeps(desc)| ::
      args[3 + i] == Export(mods[DeclaredDeps(desc)[i]].exports)
  {
    [RequireFn, ExportsObj(map[]), ModuleObj(desc.id, desc.deps)] + DepArgs(DeclaredDeps(desc), mods)
  }

  /** The factory's outcome when `build` runs it against `mods`. */
  function Invoke(desc: Descriptor, mods: Table): Outcome
    requires DepsLoaded(desc, mods)
  {
    desc.factory(FactoryArgs(desc, mods))
  }

  /** The argument list sees the table only through the declared
      dependencies' exports: two tables that agree on those give the same list. */
  lemma FactoryArgsSeeOnlyDeps(desc: Descriptor, m1: Table, m2: Table)
    requires DepsLoaded(desc, m1) && DepsLoaded(desc, m2)
    requires forall d | d in DeclaredDeps(desc) :: m1[d].exports == m2[d].exports
    ensures FactoryArgs(desc, m1) == FactoryArgs(desc, m2)
  {
    var a1, a2 := FactoryArgs(desc, m1), FactoryArgs(desc, m2);
    forall i | 0 <= i < |a1| ensures a1[i] == a2[i] {
      if i >= 3 {
        assert DeclaredDeps(desc)[i - 3] in DeclaredDeps(desc);
      }
    }
  }

  /** The final exports: the written exports with a truthy return value's keys
      copied over them. */
  function Merge(written: map<string, Value>, returned: Option<map<string, Value>>): (ex: map<string, Value>)
    ensures returned.None? ==> ex == written
    ensures returned.Some? ==> ex.Keys == written.Keys + returned.value.Keys
    ensures returned.Some? ==> forall k | k in returned.value :: ex[k] == returned.value[k]
    ensures forall k | k in written && (returned.None? || k !in returned.value) :: ex[k] == written[k]
  {
    match returned
    case None => written
    case Some(source) => written + source
  }

  /** `extend(target, source)`: copy every key of `source` onto `target`. */
  method Extend(target: map<string, Value>, source: map<string, Value>) returns (r: map<string, Value>)
    ensures r.Keys == target.Keys + source.Keys
    ensures forall k | k in source :: r[k] == source[k]
    ensures forall k | k in target && k !in source :: r[k] == target[k]
  {
    r := target;
    var todo := source.Keys;
    while todo != {}
      invariant todo <= source.Keys
      invariant r.Keys == target.Keys + (source.Keys - todo)
      invariant forall k | k in source && k !in todo :: r[k] == source[k]
      invariant forall k | k in target && k !in source :: r[k] == target[k]
      decreases todo
    {
      var key :| key in todo;
      r := r[key := source[key]];
      todo := todo - {key};
    }
  }

  /** The id the descriptor carries after the factory ran: one the factory
      assigned to `module.id`, else the one it was built with. */
  function FinalId(desc: Descriptor, out: Outcome): (id: Option<string>)
    // an id assigned inside the factory takes precedence over the declared one
    ensures out.assignedId.Some? ==> id == out.assignedId
    ensures out.assignedId.None? ==> id == desc.id
    // the module stays anonymous only when neither gave it an id
    ensures id.None? <==> out.assignedId.None? && desc.id.None?
  {
    if out.assignedId.Some? then out.assignedId else desc.id
  }

  /** The result of a registry call together with the table it leaves. */
  datatype Step<+T> = Step(result: Result<T>, modules: Table)

  /** `after` is `before` with at most one key added and no record changed. */
  predicate AddsAtMostOne(before: Table, after: Table)
  {
    && (forall k | k in before :: k in after && after[k] == before[k])
    && (forall k, k' | k in after && k !in before && k' in after && k' !in before :: k == k')
  }

  /** The table's own rules: every record sits under its own id, and every id
      a record lists as a dependency is itself registered. */
  predicate TableValid(m: Table)
  {
    forall k | k in m :: m[k].id == k && (m[k].deps.Some? ==> forall d | d in m[k].deps.value :: d in m)
  }

  /** What `build(desc)` returns or throws, and the table afterwards. */
  function BuildSpec(desc: Descriptor, mods: Table): (s: Step<Value>)
    requires DepsLoaded(desc, mods)
    // a build adds at most one record and never changes or removes one
    ensures AddsAtMostOne(mods, s.modules)
    ensures s.result.Err? ==> s.modules == mods
    // the exports are the factory's written exports with its return value merged over them
    ensures s.result.Ok? ==>
      s.result.value == Obj(Merge(Invoke(desc, mods).written, Invoke(desc, mods).returned))
    // without an id nothing is registered
    ensures FinalId(desc, Invoke(desc, mods)).None? ==> s.result.Ok? && s.modules == mods
    // with a taken id the build fails and nothing is registered
    ensures FinalId(desc, Invoke(desc, mods)).Some? && FinalId(desc, Invoke(desc, mods)).value in mods ==>
      s == Step(Err(AlreadyExists(FinalId(desc, Invoke(desc, mods)).value)), mods)
    // with a fresh id exactly that one key is added, holding the returned exports
    ensures FinalId(desc, Invoke(desc, mods)).Some? && FinalId(desc, Invoke(desc, mods)).value !in mods ==>
      var id := FinalId(desc, Invoke(desc, mods)).value;
      && s.result.Ok?
      && s.modules.Keys == mods.Keys + {id}
      && s.modules[id] == Record(id, Some(DeclaredDeps(desc)), s.result.value)
  {
    var out := Invoke(desc, mods);
    var exports := Obj(Merge(out.written, out.returned));
    match FinalId(desc, out)
    case None => Step(Ok(exports), mods)
    case Some(id) =>
      if id in mods then Step(Err(AlreadyExists(id)), mods)
      else
        Step(Ok(exports), mods[id := Record(id, Some(DeclaredDeps(desc)), exports)])
  }

  /** `build({id, deps: parseDeps(deps), factory})`: validate the dependency
      list, then build with the deduplicated list. */
  function ValidateThenBuild(id: Option<string>, deps: seq<string>, f: Factory, mods: Table): (s: Step<Value>)
    ensures s.result.Err? ==> s.modules == mods
    ensures AddsAtMostOne(mods, s.modules)
    // a dependency list with an unregistered id fails on its first missing id, before any factory runs
    ensures !AllLoaded(deps, mods) ==>
      s == Step(Err(DepNotLoaded(deps[FirstMissing(deps, mods)])), mods)
    // a fully registered list is built deduplicated
    ensures AllLoaded(deps, mods) ==>
      var list := ValidateDeps(deps, mods).value;
      list == Dedup(deps) && s == BuildSpec(Descriptor(id, Some(list), f), mods)
  {
    match ValidateDeps(deps, mods)
    case Err(e) => Step(Err(e), mods)
    case Ok(list) => BuildSpec(Descriptor(id, Some(list), f), mods)
  }

  /** `modules[id] = {id: id, exports: value}`: store a raw value under its id,
      with no duplicate check and no `deps` key, and return it. */
  function StoreValue(id: string, v: Value, mods: Table): (s: Step<Value>)
    ensures s.result == Ok(v)
    ensures s.modules.Keys == mods.Keys + {id}
    ensures s.modules[id] == Record(id, None, v)
    ensures forall k | k in mods && k != id :: s.modules[k] == mods[k]
  {
    Step(Ok(v), mods[id := Record(id, None, v)])
  }

  /** What `define(...)` returns or throws for each call shape, and the table afterwards. */
  function DefineSpec(call: DefineCall, mods: Table): (s: Step<Value>)
    requires call.WellFormed()
    // a failed define leaves the table as it was
    ensures s.result.Err? ==> s.modules == mods
    // every shape but the raw value adds at most one record and changes none
    ensures !call.NamedValue? ==> AddsAtMostOne(mods, s.modules)
    // any other single argument is handed back unchanged
    ensures call.Passthrough? ==> s == Step(Ok(call.arg), mods)
  {
    match call
    case Named(id, deps, f) => ValidateThenBuild(Some(id), deps, f, mods)
    case AnonymousWithDeps(deps, f) => ValidateThenBuild(None, deps, f, mods)
    case NamedFactory(id, f) => BuildSpec(Descriptor(Some(id), None, f), mods)
    case NamedValue(id, v) => StoreValue(id, v, mods)
    case Anonymous(f) => BuildSpec(Descriptor(None, None, f), mods)
    case Passthrough(v) => Step(Ok(v), mods)
  }

  /** A build keeps the table's rules: the one record it may add sits under
      its own id and lists only registered dependencies. */
  lemma BuildKeepsValid(desc: Descriptor, mods: Table)
    requires DepsLoaded(desc, mods) && TableValid(mods)
    ensures TableValid(BuildSpec(desc, mods).modules)
  {
  }

  /** No `define` removes a key, the raw-value overwrite included. */
  lemma DefineNeverRemoves(call: DefineCall, mods: Table)
    requires call.WellFormed()
    ensures mods.Keys <= DefineSpec(call, mods).modules.Keys
  {
  }

  /** Every `define` keeps the table's rules. */
  lemma DefineKeepsValid(call: DefineCall, mods: Table)
    requires call.WellFormed() && TableValid(mods)
    ensures TableValid(DefineSpec(call, mods).modules)
  {
    match call
    case Named(id, deps, f) =>
      var l := ValidateDeps(deps, mods);
    case AnonymousWithDeps(deps, f) =>
      var l := ValidateDeps(deps, mods);
    case NamedFactory(id, f) =>
    case NamedValue(id, v) =>
    case Anonymous(f) =>
    case Passthrough(v) =>
  }
}
