/**
 * Properties that span several registry calls, and the walk-through the
 * repository ships after the registry itself: a raw-value module `HMY`, a
 * module `tool` that depends on it, and an anonymous module that names itself
 * `plus` from inside its factory.
 */
module Scenario {
  import opened Values
  import opened DepList
  import opened Semantics
  import opened Cmd

  /** A factory that leaves `module.id` alone. */
  ghost predicate KeepsId(f: Factory)
  {
    forall args :: f(args).assignedId.None?
  }

  /** Registering an id a second time fails with "already exists" and keeps
      the first record. */
  lemma SecondRegistrationFails(id: string, f: Factory, mods: Table)
    requires id in mods && KeepsId(f)
    ensures DefineSpec(NamedFactory(id, f), mods) == Step(Err(AlreadyExists(id)), mods)
  {
  }

  /** A dependency list with repeats builds exactly like its deduplicated list:
      the factory sees one export per distinct id. */
  lemma RepeatsDoNotReachFactory(id: string, deps: seq<string>, f: Factory, mods: Table)
    ensures DefineSpec(Named(id, deps, f), mods) == DefineSpec(Named(id, Dedup(deps), f), mods)
  {
    DedupIdempotent(deps);
    DedupElements(deps);
    if !AllLoaded(deps, mods) {
      var k := FirstMissing(deps, mods);
      assert deps[k] in Dedup(deps);
      assert !AllLoaded(Dedup(deps), mods);
      var j := FirstMissing(Dedup(deps), mods);
      assert Dedup(deps)[j] == deps[k] by {
        DedupFirstOccurrenceOrder(deps);
        FirstMissingOfDedup(deps, mods);
      }
    } else {
      assert AllLoaded(Dedup(deps), mods) by {
        forall i | 0 <= i < |Dedup(deps)| ensures Dedup(deps)[i] in mods {
          assert Dedup(deps)[i] in deps;
        }
      }
    }
  }

  /** The first unregistered id of a list is also the first unregistered id
      of its deduplication. */
  lemma FirstMissingOfDedup(deps: seq<string>, mods: Table)
    requires !AllLoaded(deps, mods)
    ensures !AllLoaded(Dedup(deps), mods)
    ensures Dedup(deps)[FirstMissing(Dedup(deps), mods)] == deps[FirstMissing(deps, mods)]
  {
    var d := Dedup(deps);
    var k := FirstMissing(deps, mods);
    DedupElements(deps);
    DedupFirstOccurrenceOrder(deps);
    assert deps[k] in d;
    var j :| 0 <= j < |d| && d[j] == deps[k];
    var m := FirstIndex(deps, d[j]);
    NotInPrefix(deps, d[j], m);
    PrefixLoaded(deps, mods, k);
    assert deps[m] == deps[k];
    forall i | 0 <= i < j
      ensures d[..j][i] in mods
    {
      var n := FirstIndex(deps, d[i]);
      assert n < k;
      assert deps[..k][n] == d[i];
    }
    FirstMissingAt(d, mods, j);
  }

  /** `define('tool', ['HMY'], ...)`: writes `add` onto its exports. */
  function ToolFactory(args: seq<Arg>): Outcome
  {
    Outcome(map["add" := Fn("add")], None, None)
  }

  /** The anonymous module: sets `module.id = 'plus'`, writes `half` and
      returns `double` and `triple`. */
  function PlusFactory(args: seq<Arg>): Outcome
  {
    Outcome(map["half" := Fn("half")], Some(map["double" := Fn("double"), "triple" := Fn("triple")]), Some("plus"))
  }

  const Version := Obj(map["version" := Str("4.0")])
  const ToolExports := Obj(map["add" := Fn("add")])
  const PlusExports := Obj(map["half" := Fn("half"), "double" := Fn("double"), "triple" := Fn("triple")])

  const AfterTool: Table :=
    map["HMY" := Record("HMY", None, Version), "tool" := Record("tool", Some(["HMY"]), ToolExports)]
  const AfterPlus: Table :=
    AfterTool["plus" := Record("plus", Some([]), PlusExports)]

  const AfterHmy: Table := map["HMY" := Record("HMY", None, Version)]

  /** `tool` is declared with the descriptor `{id: 'tool', deps: ['HMY']}`. */
  const ToolDescriptor := Descriptor(Some("tool"), Some(["HMY"]), ToolFactory)

  /** `tool`'s one dependency is registered, so `parseDeps` keeps it. */
  lemma ToolDepsValid()
    ensures ValidateDeps(["HMY"], AfterHmy) == Ok(["HMY"])
  {
    assert ["HMY"][..0] == [] && Dedup(["HMY"]) == ["HMY"];
  }

  /** Building `tool` stores it under its own id with the exports it wrote. */
  lemma ToolBuilt()
    ensures DepsLoaded(ToolDescriptor, AfterHmy)
    ensures BuildSpec(ToolDescriptor, AfterHmy) == Step(Ok(ToolExports), AfterTool)
  {
    var out := Invoke(ToolDescriptor, AfterHmy);
    assert out == Outcome(map["add" := Fn("add")], None, None);
    assert FinalId(ToolDescriptor, out) == Some("tool") && "tool" !in AfterHmy;
    assert AfterHmy["tool" := Record("tool", Some(["HMY"]), ToolExports)] == AfterTool;
  }

  /** `define('tool', ['HMY'], factory)` on top of `HMY` registers `tool`. */
  lemma ToolDefined()
    ensures DefineSpec(Named("tool", ["HMY"], ToolFactory), AfterHmy) == Step(Ok(ToolExports), AfterTool)
  {
    ToolDepsValid();
    ToolBuilt();
  }

  /** `define('HMY', {version: '4.0'})`, then `tool` on top of it. */
  method DefineHmyAndTool(reg: Registry)
    requires reg.modules == map[]
    modifies reg
    ensures reg.modules == AfterTool
  {
    var hmy := reg.Define(NamedValue("HMY", Version));
    assert hmy == Ok(Version);
    ToolDefined();
    var tool := reg.Define(Named("tool", ["HMY"], ToolFactory));
    assert tool == Ok(ToolExports);
  }

  /** The plus factory's written and returned properties merge into `PlusExports`. */
  lemma PlusMerged()
    ensures var out := Invoke(Descriptor(None, None, PlusFactory), AfterTool);
      Merge(out.written, out.returned) == PlusExports.props
  {
  }

  /** The anonymous module registers itself as `plus`; its exports hold the
      written `half` and the returned `double` and `triple`. */
  method DefinePlus(reg: Registry)
    requires reg.modules == AfterTool
    modifies reg
    ensures reg.modules == AfterPlus
  {
    PlusMerged();
    var plus := reg.Define(Anonymous(PlusFactory));
    assert plus == Ok(PlusExports);
  }

  /** The two lookups inside `test`'s factory: `require('plus')`, then
      `require(['HMY', 'plus'], callback)` with the callback called once per id. */
  method LookUpPlus(reg: Registry) returns (plus: Value, all: Value, seen: seq<Value>)
    requires reg.modules == AfterPlus
    ensures plus == PlusExports
    ensures all == Obj(map["HMY" := Version, "plus" := PlusExports])
    ensures seen == [Version, PlusExports]
  {
    assert reg.modules["HMY"].exports == Version && reg.modules["plus"].exports == PlusExports;
    var p, calls := reg.Require("plus", false);
    assert p == Ok(PlusExports) && calls == [];
    plus := p.value;

    var r;
    r, seen := reg.RequireAll(["HMY", "plus"], true);
    assert AllLoaded(["HMY", "plus"], reg.modules);
    assert r.Ok? && r.value.props == map["HMY" := Version, "plus" := PlusExports];
    all := r.value;
  }

  /** `define('test', factory)`: its factory only reads other modules, writes
      nothing and returns nothing, so `test` is stored with empty exports. */
  function TestFactory(args: seq<Arg>): Outcome
  {
    Outcome(map[], None, None)
  }

  const AfterTest: Table := AfterPlus["test" := Record("test", Some([]), Obj(map[]))]

  /** `test` is registered under its own id with no dependencies and empty exports. */
  method DefineTest(reg: Registry)
    requires reg.modules == AfterPlus
    modifies reg
    ensures reg.modules == AfterTest
  {
    var test := reg.Define(NamedFactory("test", TestFactory));
    assert test == Ok(Obj(map[]));
  }

  /** The three error kinds, each leaving the table as it was. */
  method Failures(reg: Registry)
    requires "HMY" in reg.modules && "tool" in reg.modules && "missing" !in reg.modules
    modifies reg
    ensures reg.modules == old(reg.modules)
  {
    var none, _ := reg.Require("missing", true);
    assert none == Err(NotYetBuilt("missing"));

    var deps := ["HMY", "missing", "absent"];
    assert FirstMissing(deps, reg.modules) == 1 by {
      assert deps[..1] == ["HMY"];
      FirstMissingAt(deps, reg.modules, 1);
    }
    var early := reg.Define(AnonymousWithDeps(deps, ToolFactory));
    assert early == Err(DepNotLoaded("missing"));

    SecondRegistrationFails("tool", ToolFactory, reg.modules);
    var again := reg.Define(NamedFactory("tool", ToolFactory));
    assert again == Err(AlreadyExists("tool"));
  }

  method WalkThrough()
  {
    var reg := new Registry();
    DefineHmyAndTool(reg);
    DefinePlus(reg);
    var plus, all, seen := LookUpPlus(reg);
    DefineTest(reg);
    Failures(reg);
  }
}
