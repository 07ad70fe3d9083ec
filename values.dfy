/**
 * The data model of the CMD module registry: the values a module can export,
 * the records the registry stores, what a factory is handed and what it
 * produces, the three error kinds, and the call shapes `define` accepts.
 */
module Values {

  datatype Option<+T> = None | Some(value: T)

  /** A JavaScript value, as far as the registry cares. Functions held in an
      exports object are opaque names: the registry never calls them. */
  datatype Value =
    | Undefined
    | Null
    | Bool(b: bool)
    | Num(n: int)
    | Str(s: string)
    | Obj(props: map<string, Value>)
    | Fn(name: string)

  /** The three ways a registry call fails (each is a thrown string in the source). */
  datatype Error =
    | DepNotLoaded(id: string)   // parseDeps: a dependency is not registered yet
    | AlreadyExists(id: string)  // build: the module's id is taken
    | NotYetBuilt(id: string)    // require: the requested module is absent

  datatype Result<+T> = Ok(value: T) | Err(error: Error)

  /** The text each error's message starts with; the module id follows it. */
  function Prefix(e: Error): string
  {
    match e
    case DepNotLoaded(_) => "依赖模块未完全载入："
    case AlreadyExists(_) => "此模块已经存在："
    case NotYetBuilt(_) => "该模块尚未构建："
  }

  /** The string each error is thrown with. */
  function Message(e: Error): (m: string)
    ensures |m| == |Prefix(e)| + |e.id|
    ensures m[..|Prefix(e)|] == Prefix(e) && m[|Prefix(e)|..] == e.id
  {
    Prefix(e) + e.id
  }

  /** A thrown message tells which error it was and which module it names. */
  lemma MessageDetermines(e1: Error, e2: Error)
    requires Message(e1) == Message(e2)
    ensures e1 == e2
  {
    assert Message(e1)[0] == Prefix(e1)[0] && Message(e2)[0] == Prefix(e2)[0];
    assert Prefix(e1) == Prefix(e2);
  }

  /** A registry entry `{id, deps, exports}`. A record stored by a raw-value
      `define` has no `deps` key at all, hence the option. */
  datatype Record = Record(id: string, deps: Option<seq<string>>, exports: Value)

  /** The registry's table: module id to record. */
  type Table = map<string, Record>

  /** One argument handed to a factory: the global `require`, the fresh
      exports object, the module descriptor (its `id` and `deps` keys), or
      the exports of one dependency. */
  datatype Arg =
    | RequireFn
    | ExportsObj(props: map<string, Value>)
    | ModuleObj(id: Option<string>, deps: Option<seq<string>>)
    | Export(v: Value)

  /** What a factory call leaves behind: the properties it wrote onto its
      exports object, the object it returned (`None` for a falsy return), and
      the id it assigned to `module.id`, if any. */
  datatype Outcome = Outcome(
    written: map<string, Value>,
    returned: Option<map<string, Value>>,
    assignedId: Option<string>)

  /** A factory is a given function of its argument list. */
  type Factory = seq<Arg> -> Outcome

  /** The descriptor `build` receives: `{id?, deps?, factory}`. */
  datatype Descriptor = Descriptor(id: Option<string>, deps: Option<seq<string>>, factory: Factory)

  /** The six argument shapes `define` tells apart by count and type. */
  datatype DefineCall =
    | Named(id: string, deps: seq<string>, factory: Factory)  // define(id, deps, factory)
    | AnonymousWithDeps(deps: seq<string>, factory: Factory)  // define([deps], factory)
    | NamedFactory(id: string, factory: Factory)              // define(id, factory)
    | NamedValue(id: string, value: Value)                    // define(id, value), value not a function
    | Anonymous(factory: Factory)                             // define(factory)
    | Passthrough(arg: Value)                                 // define(x), x not a function
  {
    /** A value that is itself a function would have been dispatched to a
        factory shape instead. */
    predicate WellFormed()
    {
      match this
      case NamedValue(_, v) => !v.Fn?
      case Passthrough(v) => !v.Fn?
      case _ => true
    }
  }
}
