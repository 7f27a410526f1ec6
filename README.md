# Variable assigner (v1) over the workflow variable pool

This project models the part of the workflow engine that the v1 variable-assigner unit tests exercise. It has two parts.

- **The variable pool.** This is the run-wide store that maps a selector to a typed variable. A selector is a path such as `["conversation", name]` or `[node_id, output_name]`.
  - When the pool is built, it seeds environment variables under `["env", name]` and conversation variables under `["conversation", name]`.
  - `add` inserts or replaces one entry.
  - `get` looks up an exact selector and returns an option.
- **The assigner node.** One `run()` does four things:
  - It resolves the target variable.
  - It computes the new value for the write mode: overwrite, append or clear.
  - It writes a replacement variable back into the pool. The replacement keeps the target's id, name, description, selector and value type.
  - If the target is conversation-scoped, it gets the durable-store port (`ConversationVariableUpdater`) from the injected factory. It calls `update(conversation_id, variable)` once, then `flush()` once.

The model has these pieces:

- `Variables` holds the variable records: `Value = Str | ArrStr` plus the identity fields.
- `Pool` holds the pool. It is a class whose `variables` map is changed in place by `Add`. Seeding is specified by the recursive function `Seed`, where the last variable with a given name wins. The constructor's loops are proved against `Seed`.
- `ConversationUpdater` holds the port and its factory.
  - The durable store behind the port is abstracted as two maps, `committed` and `pending`. Both are keyed by (conversation id, variable id).
  - Every call made on the port is recorded in a ghost log, so call counts can be stated.
- `AssignerV1` holds the node.
  - The pure step `Assign` computes the replacement or an error. It is built on `WriteValue`.
  - The method `VariableAssignerNode.Run` resolves, computes and commits step by step. Its contract ties the new pool, the port's log and the durable view to `Assign`.
- `AssignerV1Scenarios` replays the three unit tests as client methods. The generated ids are parameters.

The conversation id passed to `update` is the one the pool's system variables were built with.

`Run` calls the port only for conversation-scoped targets; the tests exercise only such targets, so leaving the port untouched for other scopes is this model's choice.

## Model

| member | source | states |
|---|---|---|
| `Variables.StringVariable` | api/tests/unit_tests/core/workflow/nodes/variable_assigner/v1/test_variable_assigner_v1.py:56-66 | a string variable built from id, name and text is well typed, tagged as a string, and carries exactly that id, name and text |
| `Variables.ArrayStringVariable` | api/tests/unit_tests/core/workflow/nodes/variable_assigner/v1/test_variable_assigner_v1.py:154-158 | an array-of-string variable is well typed, tagged as an array of strings, and carries exactly the given id, name and items |
| `Variables.WithValue` | api/tests/unit_tests/core/workflow/nodes/variable_assigner/v1/test_variable_assigner_v1.py:103-110 | the replacement variable keeps id, name, description, selector and value type and carries the new value; it is well typed exactly when the new value has the declared type |
| `Variables.ZeroValue` | api/tests/unit_tests/core/workflow/nodes/variable_assigner/v1/test_variable_assigner_v1.py:286-292 | the empty form of a value type has that type and is empty, and it is the only such value |
| `Pool.Seed` | api/tests/unit_tests/core/workflow/nodes/variable_assigner/v1/test_variable_assigner_v1.py:70-75 | seeding a list of variables into a scope adds exactly the selectors `[scope, name]` of those variables and keeps every existing selector |
| `Pool.LastNamed` | api/tests/unit_tests/core/workflow/nodes/variable_assigner/v1/test_variable_assigner_v1.py:74 | it finds nothing exactly when no variable has the name; otherwise it returns a variable of the list with that name and no later one has the name |
| `Pool.SeedLookup` | api/tests/unit_tests/core/workflow/nodes/variable_assigner/v1/test_variable_assigner_v1.py:70-75 | after seeding, `[scope, name]` resolves to the last seeded variable of that name; every other selector resolves as before |
| `Pool.SeededPoolResolves` | api/tests/unit_tests/core/workflow/nodes/variable_assigner/v1/test_variable_assigner_v1.py:70-75 | a fresh pool resolves `["conversation", n]` and `["env", n]` to the last conversation or environment variable named `n`, and resolves nothing else |
| `Pool.UniqueNamesResolve` | api/tests/unit_tests/core/workflow/nodes/variable_assigner/v1/test_variable_assigner_v1.py:74 | when names are distinct, each seeded variable is the one found under its own name |
| `Pool.VariablePool.constructor` | api/tests/unit_tests/core/workflow/nodes/variable_assigner/v1/test_variable_assigner_v1.py:70-75 | the pool keeps the system variables and holds exactly the seeded environment and conversation variables |
| `Pool.VariablePool.Add` | api/tests/unit_tests/core/workflow/nodes/variable_assigner/v1/test_variable_assigner_v1.py:77-80 | after `add(selector, v)` the selector maps to `v` and every other entry is unchanged |
| `Pool.VariablePool.Get` | api/tests/unit_tests/core/workflow/nodes/variable_assigner/v1/test_variable_assigner_v1.py:114-115 | `get` is present exactly when the selector is a key, and then it is that entry |
| `ConversationUpdater.CountsOfConcat` | api/tests/unit_tests/core/workflow/nodes/variable_assigner/v1/test_variable_assigner_v1.py:111-112 | the numbers of update and flush calls in two consecutive call logs add up |
| `ConversationUpdater.CommitCallsOnce` | api/tests/unit_tests/core/workflow/nodes/variable_assigner/v1/test_variable_assigner_v1.py:111-112 | one commit adds exactly one update call and exactly one flush call to any call log |
| `ConversationUpdater.ConversationVariableUpdater.constructor` | api/tests/unit_tests/core/workflow/nodes/variable_assigner/v1/test_variable_assigner_v1.py:82 | a new port has no pending updates, holds the given durable view, and has received no calls |
| `ConversationUpdater.ConversationVariableUpdater.Update` | api/tests/unit_tests/core/workflow/nodes/variable_assigner/v1/test_variable_assigner_v1.py:111 | `update` records the variable as pending under its conversation and id, leaves the durable view unchanged, and logs one update call |
| `ConversationUpdater.ConversationVariableUpdater.Flush` | api/tests/unit_tests/core/workflow/nodes/variable_assigner/v1/test_variable_assigner_v1.py:112 | `flush` commits every pending update into the durable view, leaves nothing pending, and logs one flush call |
| `ConversationUpdater.UpdaterFactory.constructor` | api/tests/unit_tests/core/workflow/nodes/variable_assigner/v1/test_variable_assigner_v1.py:83 | the factory hands out the port it was built with and has not yet been invoked |
| `ConversationUpdater.UpdaterFactory.Create` | api/tests/unit_tests/core/workflow/nodes/variable_assigner/v1/test_variable_assigner_v1.py:83 | each invocation returns the factory's port and is counted once |
| `AssignerV1.WriteValue` | api/tests/unit_tests/core/workflow/nodes/variable_assigner/v1/test_variable_assigner_v1.py:199-200 | clear always succeeds with an empty value of the target's type; overwrite succeeds exactly when an input exists and then yields the input's value; append succeeds exactly when the input is a string and the target holds an array, and then yields the old items with the input string added at the end |
| `AssignerV1.Assign` | api/tests/unit_tests/core/workflow/nodes/variable_assigner/v1/test_variable_assigner_v1.py:102-110 | a run fails with "target not found" exactly when the target selector does not resolve; a successful run's replacement has the target's identity fields |
| `AssignerV1.AssignFailsIff` | api/tests/unit_tests/core/workflow/nodes/variable_assigner/v1/test_variable_assigner_v1.py:94-96 | a run fails exactly when the target is missing, or the input is missing in a mode that reads it, or an append has no array target or no string input |
| `AssignerV1.OverwriteTakesInput` | api/tests/unit_tests/core/workflow/nodes/variable_assigner/v1/test_variable_assigner_v1.py:103-111 | overwrite keeps the target's id, name, description, selector and value type, and its value equals the input variable's value |
| `AssignerV1.AppendAddsAtEnd` | api/tests/unit_tests/core/workflow/nodes/variable_assigner/v1/test_variable_assigner_v1.py:199-214 | append keeps the identity fields; the array grows by one, earlier elements are unchanged and in order, and the input string is the last element |
| `AssignerV1.ClearEmpties` | api/tests/unit_tests/core/workflow/nodes/variable_assigner/v1/test_variable_assigner_v1.py:278-299 | clear keeps the identity fields, leaves an array target empty whatever it held, and gives the same result whatever the input selector is |
| `AssignerV1.AssignTyping` | api/tests/unit_tests/core/workflow/nodes/variable_assigner/v1/test_variable_assigner_v1.py:103-110 | append and clear keep a well-typed target well typed; overwrite does so exactly when the input's value has the target's declared type |
| `AssignerV1.VariableAssignerNode.constructor` | api/tests/unit_tests/core/workflow/nodes/variable_assigner/v1/test_variable_assigner_v1.py:85-100 | the node holds its id, its configuration, the shared pool and the injected port factory |
| `AssignerV1.VariableAssignerNode.Run` | api/tests/unit_tests/core/workflow/nodes/variable_assigner/v1/test_variable_assigner_v1.py:102-117 | the result is `Assign` on the pool as it was; a failed run changes nothing; a successful run replaces only the target's pool entry; for a conversation target the factory is invoked once and the port logs exactly `update(conversation id, replacement)` then `flush`, after which the durable view and the pool agree; for any other target the factory and port are untouched |
| `AssignerV1Scenarios.OverwriteStringVariable` | api/tests/unit_tests/core/workflow/nodes/variable_assigner/v1/test_variable_assigner_v1.py:22-117 | after the overwrite run, `get(["conversation", name])` returns the string variable holding "the second value"; the port received exactly that variable in one update, then one flush |
| `AssignerV1Scenarios.AppendVariableToArray` | api/tests/unit_tests/core/workflow/nodes/variable_assigner/v1/test_variable_assigner_v1.py:120-214 | after the append run, the pool holds `["the first value", "the second value"]` under the conversation selector; the port received that variable in one update, then one flush |
| `AssignerV1Scenarios.ClearArray` | api/tests/unit_tests/core/workflow/nodes/variable_assigner/v1/test_variable_assigner_v1.py:217-299 | after the clear run, which has an empty input selector, the pool holds the empty array under the conversation selector; the port received that variable in one update, then one flush |

## Left out

- AssignerV1.VariableAssignerNode.Run: what happens to the port for a non-conversation target is not pinned down by the tests; the model leaves the factory and the port untouched in that case.
- The graph, its configuration dicts and the graph init parameters are opaque pass-through data. No behaviour of theirs is asserted.
- Wall-clock time (`time.perf_counter`, the runtime state's start time) is not modelled.
- Generated ids are not modelled. Every uuid is a caller-supplied string.
- The shape of `run()` is simplified. In the source it is a lazy generator of events. Here it is one method returning the outcome: the replacement variable, or the error.
- `to_object()` is not modelled. The value payload itself stands for the plain object.
- `user_inputs` are not modelled. The tests pass an empty mapping.
- System variables are not entries of the pool's map. They are kept as a read-only record on the pool, and `get(["sys", ...])` is not modelled.
- Value kinds other than string and array of string are left out: numbers, objects, files and arrays of those. The tests use only these two kinds.
- Selectors are not checked for length. `add` and `get` accept any selector and match it exactly. Attribute access through selectors longer than two segments is also left out.
- An unknown write mode is not modelled. The write mode is a closed enumeration here, and parsing the configuration string is not part of this model.
- For an append whose input is not a string, the model reports `AppendItemNotString`. The result would otherwise not be an array of strings.
- The real durable store is abstracted. Only the port's contract is modelled: an upsert that stays pending until the flush.
- Concurrency and locking around the shared pool are left out.
