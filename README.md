# miniCMD module registry, modelled in Dafny

miniCMD is a small synchronous module registry. One table, `modules`, maps a
module id to a record `{id, deps, exports}`. There are two entry points:

- `define(...)` builds a module by calling its factory with `require`, a fresh
  exports object, the module descriptor and the exports of its dependencies.
  If the module ends up with an id, `define` stores it.
- `require(...)` looks up the exports of one id or of a list of ids.

There are three error kinds:

- "dependency not fully loaded", raised by `parseDeps`;
- "module already exists", raised by `build`;
- "module not yet built", raised by `require`.

## Files

- `values.dfy` (module `Values`): the data model.
  - JavaScript values, with an exports object as `Obj(map<string, Value>)`.
  - Records, the table, and the factory's arguments and outcome.
  - The error kinds and their exact messages.
  - `DefineCall`, a tagged union of the six argument shapes `define` tells apart.
- `deplist.dfy` (module `DepList`): `Dedup`, the first-occurrence
  deduplication that `parseDeps` performs, and lemmas about it.
- `semantics.dfy` (module `Semantics`): what each operation computes, as
  functions of the table it sees. It also holds `Extend`, the `for...in` copy
  loop of `extend`.
- `registry.dfy` (module `Cmd`): class `Registry`, with the table as a mutable
  `modules` field.
  - `ParseDeps`, `Build` and `Define` are proved against the definitions in
    `Semantics`.
  - `Require` and `RequireAll` state their results outright.
  - `ParseDeps`, `Require` and `RequireAll` have no `modifies` clause, so
    they cannot change the table.
- `scenario.dfy` (module `Scenario`): properties that span several calls, and
  the repository's own walk-through (`HMY`, `tool`, `plus`, `test`), expressed
  as calls on the class and verified. `Failures` and `WalkThrough` are further
  walk-through methods without a row below: `Failures` hits each of the three
  error kinds on a table holding `HMY` and `tool` and shows the table
  unchanged; `WalkThrough` chains all steps from a fresh registry.

### Modelling choices

- **Factories.** A factory is a total function `seq<Arg> -> Outcome`. Its
  outcome holds three things:
  - the properties it wrote onto its exports object;
  - the object it returned (`None` for a falsy return);
  - the id it assigned to `module.id`, if any.
- **Call shapes.** `define` picks a shape by `arguments.length` and by type
  tests. Here the caller picks a `DefineCall` constructor instead.
  `DefineCall.WellFormed` forbids a function value in the raw-value and
  pass-through shapes, because the source would send such a value to a
  factory branch.
- **`require`.** The source tests `isArray` to choose between one id and a
  list. Here that is two methods: `Require` for one id and `RequireAll` for a
  flat list.
- **Callbacks.** `Require` and `RequireAll` take a flag that says whether
  the callback is a function. They also return `calls`, the list of values
  passed to the callback, in order. The callback's own effects are not
  modelled.
- **Raw values overwrite.** `define(id, value)` stores `{id, exports: value}`
  with no duplicate check: it replaces any existing record and stores no
  `deps` key (cmd.js:124). Every other registration fails on a taken id
  (cmd.js:63-64).

## Model

| member | source | states |
|---|---|---|
| `Values.Message` | cmd.js:40 | a thrown message is the error's fixed text followed by the module id; the texts are those thrown at cmd.js:40, 64 and 97 |
| `Values.MessageDetermines` | cmd.js:40-97 | two errors with the same thrown string are the same error: the string names both the kind (lines 40, 64, 97) and the id |
| `DepList.Dedup` | cmd.js:34-43 | the `depList` that the scan builds is never longer than the input, and the first id always comes first |
| `DepList.DedupElements` | cmd.js:33-45 | the deduplicated list holds exactly the ids of the input: none lost, none invented |
| `DepList.DedupDistinct` | cmd.js:36-38 | no id appears twice in the deduplicated list |
| `DepList.DedupFirstOccurrenceOrder` | cmd.js:35-43 | the deduplicated ids are in the order of their first occurrence in the input |
| `DepList.DedupIdempotent` | cmd.js:33-45 | deduplicating a second time changes nothing |
| `DepList.RepeatSkipped` | cmd.js:36-42 | a later repeat is skipped without error: `[a, a, b]` becomes `[a, b]` |
| `Semantics.FirstMissing` | cmd.js:35-41 | the first position whose id is unregistered; every id before it is registered |
| `Semantics.ValidateDeps` | cmd.js:33-45 | success exactly when every id is registered; the result is then the deduplicated list, in first-occurrence order, all registered; otherwise the "not fully loaded" error names the first unregistered id |
| `Semantics.DepArgs` | cmd.js:22-24 | one argument per dependency, in order, carrying `modules[d].exports` |
| `Semantics.FactoryArgs` | cmd.js:57-58 | the factory gets `require`, an empty exports object and the descriptor, then one export per declared dependency; without a `deps` key, only the first three. `Semantics.Invoke` applies the factory to exactly this list (`module.factory.apply`, cmd.js:58) |
| `Semantics.FactoryArgsSeeOnlyDeps` | cmd.js:57-58 | the argument list sees the table only through the declared dependencies' exports: tables that agree on those give the same list |
| `Semantics.Merge` | cmd.js:60 | the returned object's keys overwrite the written exports; other written keys are kept; a falsy return leaves the written exports as they are |
| `Semantics.Extend` | cmd.js:16-21 | after the loop the target holds every key of both objects; the source's values win and the target's other values stay |
| `Semantics.FinalId` | cmd.js:62-63 | the id `build` registers under: one the factory assigned to `module.id` wins over the declared id; the module stays anonymous only when neither exists |
| `Semantics.BuildSpec` | cmd.js:54-72 | no existing record changes and at most one key is added; exports are the written exports merged with the return value; with no id the table is unchanged; a taken id fails with "already exists" and changes nothing; a fresh id adds exactly that key, holding `{id, deps or [], exports}` with the returned exports |
| `Semantics.ValidateThenBuild` | cmd.js:116-119 | an unregistered dependency fails with its first missing id before any factory runs, leaving the table as it was; otherwise the module is built from the deduplicated list; at most one key is added |
| `Semantics.StoreValue` | cmd.js:124-125 | the raw value is returned and stored under its id as `{id, exports: value}`, replacing any earlier record; every other key is unchanged |
| `Semantics.DefineSpec` | cmd.js:114-133 | a failed `define` leaves the table unchanged; every shape except the raw value adds at most one record and changes none; a single non-function argument is returned with the table unchanged |
| `Semantics.BuildKeepsValid` | cmd.js:62-68 | a build keeps the table's rules: the record it may add sits under its own id and lists only registered dependencies |
| `Semantics.DefineNeverRemoves` | cmd.js:114-133 | no `define` removes a key; the raw-value overwrite at cmd.js:124 replaces a record but keeps its key |
| `Semantics.DefineKeepsValid` | cmd.js:114-133 | every `define` keeps the table's rules (`TableValid`): each record sits under its own id, and each id its `deps` lists is registered, so there are no forward references |
| `Cmd.Registry.constructor` | cmd.js:9 | the table starts empty, so it keeps the table's rules |
| `Cmd.Registry.ParseDeps` | cmd.js:33-45 | the `forEach`/`push` loop returns or throws exactly what `ValidateDeps` says, and leaves the table alone |
| `Cmd.Registry.Build` | cmd.js:54-72 | the result and the new table are those of `BuildSpec` on the old table; a table that kept its rules still keeps them |
| `Cmd.Registry.Require` | cmd.js:90-99 | a registered id gives `modules[id].exports` and, when the callback is a function, one call with it; an absent id fails with "not yet built" and no calls |
| `Cmd.Registry.RequireAll` | cmd.js:84-89 | success exactly when every id is registered; the result's keys are exactly the listed ids, each mapped to its module's exports; one callback call per element, in order, with that element's exports; otherwise "not yet built" names the first missing id, after calls for the ids before it |
| `Cmd.Registry.Define` | cmd.js:114-133 | the result and the new table are those of `DefineSpec` on the old table; a table that kept its rules still keeps them, and no key is removed |
| `Scenario.SecondRegistrationFails` | cmd.js:62-65 | defining an already registered id again, with a factory that does not rename it, fails with "already exists" and keeps the first record |
| `Scenario.RepeatsDoNotReachFactory` | cmd.js:116 | a dependency list with repeats defines exactly as its deduplicated list does, on success and on failure |
| `Scenario.FirstMissingOfDedup` | cmd.js:35-41 | deduplication does not change which unregistered id is reported |
| `Scenario.ToolDepsValid` | cmd.js:143 | `tool`'s dependency list `['HMY']` passes `parseDeps` unchanged once `HMY` is registered |
| `Scenario.ToolBuilt` | cmd.js:143-153 | building `tool` stores it under its own id, with `deps: ['HMY']` and the written `add` as its exports |
| `Scenario.ToolDefined` | cmd.js:143-153 | `define('tool', ['HMY'], factory)` returns `tool`'s exports and adds exactly its record to the table holding `HMY` |
| `Scenario.DefineHmyAndTool` | cmd.js:139-153 | after the raw value `HMY` and the module `tool` depending on it, the table holds exactly those two records |
| `Scenario.PlusMerged` | cmd.js:160-174 | the plus factory's written `half` and returned `double` and `triple` merge into one exports object |
| `Scenario.DefinePlus` | cmd.js:155-175 | the anonymous factory that sets `module.id = 'plus'` is registered as `plus`; its record holds the written `half` and the returned `double` and `triple` |
| `Scenario.LookUpPlus` | cmd.js:178-187 | inside `test`'s factory, `require('plus')` gives `plus`'s exports; `require(['HMY', 'plus'], callback)` gives an object holding both modules' exports and calls the callback with `HMY`'s and then `plus`'s |
| `Scenario.DefineTest` | cmd.js:177-190 | `define('test', factory)` registers `test` under its own id with `deps: []` and empty exports, since its factory writes and returns nothing |

## Left out

- Host plumbing and I/O are not modelled: attaching `require`/`define` to `window`, and every `console.log`.
- The demo module `test` (cmd.js:177-190) is modelled by its registration (`DefineTest`) and its two lookups (`LookUpPlus`). Its `console.log` calls are left out: `plus.half(8)`, `plus.double(8)`, `plus.triple(8)` and `this` are only logged. The `this` that `triple` relies on (cmd.js:172) is not modelled either (see the item on `this` below).
- Function values inside an exports object are opaque names (`Fn("add")`). Calling them is not modelled, so `triple(8) = 24` and `half(8)`, a floating-point division, are not computed.
- The runtime type checks and `arguments.length` dispatch are out. Calls whose arguments do not fit their shape are out too: a non-array `deps`, or a non-function factory in the three-argument form, would throw a `TypeError` in JavaScript. A call with four or more arguments takes the one-argument path in JavaScript; it is expressed here as `Anonymous` or `Passthrough`.
- Module ids are strings. A three-argument `define` whose id is `undefined` still has an `id` key in JavaScript; that case is not modelled.
- `in` on plain objects also matches inherited keys such as `toString` (cmd.js:37, 63, 91). The model uses plain map membership.
- A truthy return value that is not an object (a string, say) is outside the outcome type: `for...in` would copy its indices.
- The `this` binding inside `factory.apply(module, ...)` is not modelled.
- The model assumes a factory's only effects are its writes to exports, its return value and `module.id`. Left out:
  - calling `define` re-entrantly;
  - rewriting or deleting `module.deps` or `module.id` in other ways;
  - throwing;
  - any other side effect.
- A factory may read any registered module through the live `require` it is given, and a read of an absent module throws "not yet built" out of `define` (cmd.js:144, 156, 178). In the model `RequireFn` is an inert token: the factory's outcome is a function of its arguments only, so it cannot depend on modules it did not declare, and it cannot fail that way.
- A factory that replaces its exports object (`module.exports = X`) has X merged and stored, because cmd.js:60 reads `module.exports` after the factory ran. `Outcome.written` stands for X only when X is a plain object; a replacement by a function or another non-object value, such as `module.exports = function () {...}`, is not modelled.
- Numbers are integers here (`Num(int)`); JavaScript numbers are doubles, so a raw value such as `define('PI', 3.14)` cannot be expressed. No registry operation computes with a number.
- Exports are values here. In JavaScript the stored record's exports, the value `build` or `define` returns, `require`'s result and the argument handed to dependents are one shared object, so a later write through any of them, by a factory or by a caller after `define` returns, changes the registered module. That aliasing is not modelled.
- `require` of nested arrays, and its internal third parameter that carries the accumulator, are out; only flat lists of ids are modelled.
- The JavaScript objects `require` builds for a list have key order; the model's maps do not.
