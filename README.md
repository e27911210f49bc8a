# phosphor-command: DelegateCommand and CommandRegistry

A Dafny model of the two stateful components of the phosphor command
library (`src/index.ts`):

- `DelegateCommand`: a command with a constant `id`, an `enabled` flag that
  starts out `true`, an `execute` delegate and an optional `canExecute`
  predicate. Setting `enabled` to a new value emits `canExecuteChanged`;
  `canExecute` is `false` while disabled, and otherwise the predicate's
  answer, or `true` without one.
- `CommandRegistry`: a dictionary from command id to command. `add`
  registers a batch, skipping every command whose id is already registered
  (including an id used earlier in the same batch). It emits
  `commandsAdded` once with the newly added commands, and returns a
  disposable whose callback deletes exactly those ids and emits
  `commandsRemoved`.

Files:

- `options.dfy` (module `Options`): the `Option` type for `get`'s
  `undefined` and the missing `canExecute` delegate.
- `commands.dfy` (module `Commands`): class `DelegateCommand<A>`. The
  arguments (`any` in the source) are the type parameter `A`. The delegates
  are opaque total functions. `canExecuteChanged` emissions are a ghost
  counter and `execute` calls a ghost log of arguments.
- `registration.dfy` (module `Registration`): the `add` loop as the function
  `Register` on a table value. `Firsts` is a declarative description of the
  commands `add` registers. The lemmas state what `add` and its disposal
  promise.
- `registry.dfy` (module `Registry`): class `CommandRegistry<A>` with the
  `commands` map and a ghost log of `commandsAdded`/`commandsRemoved`
  emissions. The datatype `Disposable` is the handle returned by `add`, and
  its `Dispose` method runs the removal callback.

## Model

| member | source | states |
|---|---|---|
| `Commands.DelegateCommand.constructor` | src/index.ts:98-102 | the id and delegates are the ones given, the command starts enabled (the field initialiser at line 186), nothing has been emitted or executed |
| `Commands.DelegateCommand.SetEnabled` | src/index.ts:140-146 | the flag becomes `value`; an equal value changes nothing and emits nothing; a different one emits `canExecuteChanged` exactly once; afterwards `CanExecute` holds for `args` iff `value` holds and the predicate, if any, accepts `args` |
| `Commands.DelegateCommand.CanExecute` | src/index.ts:163-168 | false whenever the command is disabled; when enabled, the predicate's answer on `args` if there is a predicate, otherwise true |
| `Commands.DelegateCommand.Execute` | src/index.ts:181-183 | the execute delegate runs on `args` (recorded in the call log), with no check of `CanExecute` |
| `Registration.Register` | src/index.ts:285-293 | after the loop of `add`, the registered ids are the old ids plus every id of the batch, and every previously registered id keeps its command |
| `Registration.RegisterAddsFirsts` | src/index.ts:285-293 | the `added` list is, in batch order, exactly the commands whose id was not registered and not used earlier in the batch |
| `Registration.RegisterFirstWins` | src/index.ts:286-293 | a command that `add` registers is the one stored under its id afterwards; a later duplicate in the batch does not replace it |
| `Registration.RegisterAddedIds` | src/index.ts:285-293 | the ids of `added` are exactly the newly registered ids (batch ids minus the old ids), pairwise distinct |
| `Registration.RegisterUnchangedIff` | src/index.ts:295-298 | `added` is empty if and only if `add` left the table unchanged |
| `Registration.RegisterKeyed` | src/index.ts:291 | if every entry is stored under its command's id before `add`, the same holds after it |
| `Registration.DisposeRestores` | src/index.ts:305-308 | removing the ids of `added` from the table `add` produced gives back the table from before `add` |
| `Registry.CommandRegistry.constructor` | src/index.ts:225-227 | a new registry has no commands and has emitted nothing |
| `Registry.CommandRegistry.List` | src/index.ts:254-256 | the result holds every registered id and nothing else, each exactly once |
| `Registry.CommandRegistry.Get` | src/index.ts:265-267 | returns a command iff one is registered under `id`, and then it is that command, whose id is `id` |
| `Registry.CommandRegistry.Add` | src/index.ts:283-311 | the new table is the one `Register` describes and stays keyed; `commandsAdded` is emitted once with `added` iff `added` is non-empty; the handle does nothing when `added` is empty and otherwise removes `added` from this registry |
| `Registry.Disposable.Dispose` | src/index.ts:305-310 | deletes exactly the ids of the added commands, leaves every other id's command in place, and emits `commandsRemoved` once with the added commands; the empty handle changes nothing |

## Left out

- The `phosphor-signaling` signals (`canExecuteChanged`, `commandsAdded`, `commandsRemoved` and their static `Signal` objects): each emission is recorded in a ghost counter or log. Subscribers and their dispatch are not modelled, and neither is a manual `canExecuteChanged` emission by the command's creator.
- `DisposableDelegate` from `phosphor-disposable` is not part of this model. `Disposable.Dispose` models its callback body, run once. Whether a second `dispose` runs the callback again is not modelled.
- `Registry.CommandRegistry.List`: the order of the returned ids is not modelled. The source returns `Object.keys` order, which it does not document; the model promises only the set of ids, each once.
- `ICommand`: the registry stores `DelegateCommand` objects only, since other implementations of the interface are not part of this model. The id of a stored command is a `const`, which matches the documented assumption that ids never change.
- `console.warn` for a duplicate id in `add`: output with no effect on the registry.
- The singleton `CommandRegistry.instance()`: a global instance with no contract of its own.
- The behaviour of the user-supplied delegates: they are opaque total functions. A `canExecute` delegate returning a non-boolean value is not modelled.
