/**
 * The CMD registry: the process-wide `modules` table and the operations that
 * read and write it in place. Each method is proved against the definitions
 * of module Semantics, or states its result outright.
 */
module Cmd {
  import opened Values
  import opened DepList
  import opened Semantics

  /** One more callback call keeps the trace aligned with the id list. */
  lemma CallsStep(ids: seq<string>, mods: Table, i: nat, calls: seq<Value>, c: seq<Value>)
    requires i < |ids| && forall j | 0 <= j <= i :: ids[j] in mods
    requires |calls| <= i && (|calls| == i || c == [])
    requires forall j | 0 <= j < |calls| :: calls[j] == mods[ids[j]].exports
    requires c == [] || c == [mods[ids[i]].exports]
    ensures forall j | 0 <= j < |calls + c| :: (calls + c)[j] == mods[ids[j]].exports
  {
  }

  /** Recording the exports of `ids[i]` keeps every earlier id's entry right. */
  lemma AccStep(ids: seq<string>, mods: Table, i: nat, acc: map<string, Value>)
    requires i < |ids| && ids[i] in mods
    requires forall j | 0 <= j < i :: ids[j] in mods && ids[j] in acc && acc[ids[j]] == mods[ids[j]].exports
    ensures var next := acc[ids[i] := mods[ids[i]].exports];
      forall j | 0 <= j < i + 1 :: ids[j] in mods && ids[j] in next && next[ids[j]] == mods[ids[j]].exports
  {
  }

  class Registry {
    /** Module id to record; the only state of the system. */
    var modules: Table

    /** The table keeps its own rules (`TableValid`). */
    predicate Valid()
      reads this
    {
      TableValid(modules)
    }

    /** The table starts empty. */
    constructor ()
      ensures modules == map[]
      ensures Valid()
    {
      modules := map[];
    }

    /** `parseDeps(deps)`: deduplicate the list while checking, id by id, that
        each is registered; throws on the first one that is not. */
    method ParseDeps(deps: seq<string>) returns (r: Result<seq<string>>)
      ensures r == ValidateDeps(deps, modules)
    {
      var depList: seq<string> := [];
      var i := 0;
      while i < |deps|
        invariant 0 <= i <= |deps|
        invariant depList == Dedup(deps[..i])
        invariant AllLoaded(deps[..i], modules)
      {
        var id := deps[i];
        assert deps[..i + 1] == deps[..i] + [id];
        assert deps[..i + 1][..i] == deps[..i];
        if id !in depList {
          if id in modules {
            depList := depList + [id];
          } else {
            FirstMissingAt(deps, modules, i);
            return Err(DepNotLoaded(id));
          }
        } else {
          DedupElements(deps[..i]);
        }
        i := i + 1;
      }
      assert deps[..i] == deps;
      r := Ok(depList);
    }

    /** `build(desc)`: run the factory on `require`, a fresh exports object, the
        descriptor and the dependencies' exports; merge a truthy return value
        over the exports; register the module if it carries an id by now. */
    method Build(desc: Descriptor) returns (r: Result<Value>)
      requires DepsLoaded(desc, modules)
      modifies this
      ensures Step(r, modules) == BuildSpec(desc, old(modules))
      // the table's rules survive a build
      ensures old(Valid()) ==> Valid()
    {
      if Valid() {
        BuildKeepsValid(desc, modules);
      }
      var args := FactoryArgs(desc, modules);
      var out := desc.factory(args);
      var exports := out.written;
      if out.returned.Some? {
        exports := Extend(exports, out.returned.value);
        assert exports == Merge(out.written, out.returned);
      }
      var id := FinalId(desc, out);
      if id.Some? {
        if id.value in modules {
          r := Err(AlreadyExists(id.value));
        } else {
          modules := modules[id.value := Record(id.value, Some(DeclaredDeps(desc)), Obj(exports))];
          r := Ok(modules[id.value].exports);
        }
      } else {
        r := Ok(Obj(exports));
      }
    }

    /** `require(id, callback)` for one id: the module's exports, handed to
        the callback first when it is a function. `calls` lists the values the
        callback was called with. */
    method Require(id: string, callbackIsFunction: bool) returns (r: Result<Value>, calls: seq<Value>)
      ensures id in modules ==> r == Ok(modules[id].exports)
      ensures id in modules ==> calls == if callbackIsFunction then [modules[id].exports] else []
      ensures id !in modules ==> r == Err(NotYetBuilt(id)) && calls == []
    {
      if id in modules {
        calls := if callbackIsFunction then [modules[id].exports] else [];
        r := Ok(modules[id].exports);
      } else {
        r, calls := Err(NotYetBuilt(id)), [];
      }
    }

    /** `require([ids], callback)`: look each id up in order, collecting an
        object keyed by id; the first absent id aborts the whole call, after the
        callback has run for the ids before it. */
    method RequireAll(ids: seq<string>, callbackIsFunction: bool) returns (r: Result<Value>, calls: seq<Value>)
      ensures r.Ok? <==> AllLoaded(ids, modules)
      ensures r.Ok? ==> r.value.Obj? && forall x :: x in r.value.props <==> x in ids
      ensures r.Ok? ==> forall i | 0 <= i < |ids| :: r.value.props[ids[i]] == modules[ids[i]].exports
      ensures r.Ok? ==> |calls| == if callbackIsFunction then |ids| else 0
      ensures r.Err? ==>
        var k := FirstMissing(ids, modules);
        r.error == NotYetBuilt(ids[k]) && |calls| == if callbackIsFunction then k else 0
      // the callback sees each looked-up module's exports, in list order
      ensures forall i | 0 <= i < |calls| :: i < |ids| && calls[i] == modules[ids[i]].exports
    {
      var mods := modules;
      var acc: map<string, Value> := map[];
      calls := [];
      var i := 0;
      while i < |ids|
        invariant 0 <= i <= |ids|
        invariant modules == mods
        invariant forall j | 0 <= j < i :: ids[j] in mods && ids[j] in acc && acc[ids[j]] == mods[ids[j]].exports
        invariant forall x | x in acc :: x in ids
        invariant |calls| == if callbackIsFunction then i else 0
        invariant forall j | 0 <= j < |calls| :: calls[j] == mods[ids[j]].exports
      {
        var v, c := Require(ids[i], callbackIsFunction);
        if v.Err? {
          PrefixLoaded(ids, mods, i);
          FirstMissingAt(ids, mods, i);
          return v, calls;
        }
        CallsStep(ids, mods, i, calls, c);
        calls := calls + c;
        var next := acc[ids[i] := v.value];
        AccStep(ids, mods, i, acc);
        acc := next;
        i := i + 1;
      }
      assert ids[..i] == ids;
      r := Ok(Obj(acc));
    }

    /** `define(...)`: dispatch on the call shape; the shapes with a dependency
        list validate it before building, and a raw value is stored as is. */
    method Define(call: DefineCall) returns (r: Result<Value>)
      requires call.WellFormed()
      modifies this
      ensures Step(r, modules) == DefineSpec(call, old(modules))
      // the table's rules survive every define, and no key is ever removed
      ensures old(Valid()) ==> Valid()
      ensures old(modules).Keys <= modules.Keys
    {
      DefineNeverRemoves(call, modules);
      if Valid() {
        DefineKeepsValid(call, modules);
      }
      match call
      case Named(id, deps, f) =>
        var list := ParseDeps(deps);
        if list.Err? {
          return Err(list.error);
        }
        r := Build(Descriptor(Some(id), Some(list.value), f));
      case AnonymousWithDeps(deps, f) =>
        var list := ParseDeps(deps);
        if list.Err? {
          return Err(list.error);
        }
        r := Build(Descriptor(None, Some(list.value), f));
      case NamedFactory(id, f) =>
        r := Build(Descriptor(Some(id), None, f));
      case NamedValue(id, v) =>
        modules := modules[id := Record(id, None, v)];
        r := Ok(v);
      case Anonymous(f) =>
        r := Build(Descriptor(None, None, f));
      case Passthrough(v) =>
        r := Ok(v);
    }
  }
}
