# dostuff, modelled in Dafny

dostuff describes a machine as a list of commands — check a precondition,
place a file, install or remove packages, manage a service, create a user —
and applies them in two phases: first every command is validated and all
problems are collected; if there are none, every command is executed. Each
command turns into host actions, each an external program invocation (`cp`,
`pacman`, `systemctl`, `useradd`), and reports a `Result` saying whether it
changed anything.

This project models that core as pure functions:

- `paths.dfy` (module `Paths`): the part of `pathlib` the commands use —
  parsing a string into a root flag and components, `is_absolute()`, `.name`
  and `str()`, with the round trip `Parse(Render(p)) == p` proved.
- `ordering.dfy` (module `Ordering`): Python's ordering of strings and
  `sorted()` of a set, proved to list every element once, ascending, and to
  be the only such listing.
- `commands.dfy` (module `Commands`): the commands. The shared package
  registry (two name sets and the remembered result of the package action)
  is an explicit `Registry` value threaded through construction and
  execution. Host actions are `Step`s appended to a trace. Executing a
  command is `Execute(cmd, reg)`: its trace, its result and the registry
  afterwards. Validation is `Validate(cmd, reg)`.
- `driver.dfy` (module `Driver`): the driver of `test.py` — a validation pass
  that collects every problem, with its command and position, in list
  order; an abort that executes nothing; otherwise every command executed
  in list order. `RunAll` is the specification and `Drive` is the
  loop-based version, proved equal to it.
- `example.dfy` (module `Example`): the command list `test.py` builds, with
  the registry its construction fills, and what the driver does with it.

## Model

| member | source | states |
|---|---|---|
| Paths.Parse | dostuff/commands.py:35-36 | a parsed path is absolute exactly when the string starts at the root, and its components are non-empty, slash-free and never "." |
| Paths.RenderShape | dostuff/commands.py:47-48 | the text `str()` gives a path with a proper first component is never empty and starts at the root exactly when the path is absolute |
| Paths.Name | dostuff/commands.py:38 | `.name` is empty exactly when there is no last component; the path is its parent's components followed by the name, and the name of a well-formed path is a single component |
| Paths.ParseRender | dostuff/commands.py:47-48 | printing a path and parsing the text gives the same path back, so the text `cp` receives names the path the command holds |
| Ordering.BelowMeansLexicographic | dostuff/commands.py:81 | the string order `sorted()` uses is Python's `<=` on `str`: the first string is a prefix of the second, or has the smaller code point at the first position where they differ |
| Ordering.BelowReflexive | dostuff/commands.py:81 | every string is below itself |
| Ordering.BelowAntisymmetric | dostuff/commands.py:81 | two strings each below the other are equal |
| Ordering.BelowTransitive | dostuff/commands.py:81 | the order is transitive |
| Ordering.BelowTotal | dostuff/commands.py:81 | any two strings are comparable, so the order is total and `sorted()` is defined on every set of names |
| Ordering.SortedListing | dostuff/commands.py:81 | `sorted()` of a set lists each element exactly once, in strictly ascending order, and nothing else |
| Ordering.SortedIsTheAscendingListing | dostuff/commands.py:81 | any strictly ascending list of exactly the set's elements is the sorted listing |
| Ordering.AscendingListingUnique | dostuff/commands.py:81 | two strictly ascending lists with the same elements are equal |
| Commands.MakeFile | dostuff/commands.py:34-40 | a file command needs an absolute destination; a given source is parsed as given; without one, the source is the destination's last component as a relative path |
| Commands.NewPackage | dostuff/commands.py:61-68 | a package call needs the action to be install or remove, merges its names into that action's set, leaves the other set and the cache unchanged, and hands back the one shared handle |
| Commands.Declare | dostuff/commands.py:61-68 | after a series of package calls, a name is in a set exactly when it was there before or some call with that action listed it |
| Commands.DeclareOrderIrrelevant | dostuff/commands.py:67 | two series of package calls that make the same declarations, in any order and with any repetition, leave the same registry |
| Commands.PackageSteps | dostuff/commands.py:72-83 | the package action is at most two `pacman` calls: `-Rs` with the sorted removals first if there are any, then `-S` with the sorted installs if there are any |
| Commands.PackageStepsListNames | dostuff/commands.py:76-82 | each `pacman` call names every package of its set once, ascending, and no other |
| Commands.Execute | dostuff/commands.py:70-84 | execution never changes the name sets; the remembered package result is filled exactly when the cache was empty and the command reaches a package handle |
| Commands.PackageActionOnce | dostuff/commands.py:70-84 | the `pacman` calls in a command's trace are the whole package action when it is the first to reach a package handle, and none otherwise, even through nested services |
| Commands.PackageRunsOnce | dostuff/commands.py:70-71 | executing the package handle any number of times performs the package action only on the first, and every execution returns no change |
| Commands.ServiceSteps | dostuff/commands.py:104-112 | a service's own calls are `systemctl <action> <name>`, followed by `systemctl reload <name>` exactly when its config reported a change |
| Commands.ServiceOrder | dostuff/commands.py:101-113 | a service's trace is its config's trace, then its file's trace, then its action, then the reload when the config changed; it reports no change whatever its sub-commands reported |
| Commands.UserArgs | dostuff/commands.py:123-133 | `useradd` gets `--create-home` exactly when a home directory is asked for and `--system` exactly when a system user is, in that order, with the name last |
| Commands.UserAddsOnce | dostuff/commands.py:122-135 | a user is created by one `useradd` call and reports no change |
| Commands.LeavesDoNothing | dostuff/commands.py:19-30 | `Nothing` and `Check` perform no host action, report no change and leave the registry as it was, whatever path the check names |
| Commands.FileCopiesOnce | dostuff/commands.py:42-51 | a file is placed by exactly one `cp <source> <destination>` and always reports a change |
| Commands.FileExample | dostuff/commands.py:33-51 | a file command for `/a/b` runs `cp b /a/b` |
| Commands.OnlyFilesChange | dostuff/commands.py:19-135 | a command reports a change exactly when it is a file; the package action's remembered result is no change |
| Commands.Validate | dostuff/commands.py:86-89 | validation reports a problem exactly for a package handle when some name is both to be installed and to be removed, naming exactly those names; every other command reports nothing |
| Commands.NothingDoAsWritten | dostuff/commands.py:20-21 | as written, `Nothing.do` returns no value, not a `Result` |
| Commands.ServiceDoAsWritten | dostuff/commands.py:101-113 | as written, a service always issues `systemctl <action> <name>` first; it then fails, returning nothing, exactly when its config returned no value, and otherwise reloads as intended and reports no change |
| Commands.DefaultConfigRaisesAsWritten | dostuff/commands.py:19-21 | as written, a service with the default config runs `systemctl <action> <name>` and then fails on its config's missing result, with no reload |
| Commands.DefaultConfigServiceRuns | dostuff/commands.py:93 | with the default config and file, a service runs only `systemctl <action> <name>` and reports no change |
| Driver.ErrorsAreFailures | test.py:18-22 | every collected error names a command in the list, that very command, and the problem its validation reported |
| Driver.ErrorsInListOrder | test.py:18-22 | errors are collected in list order |
| Driver.EveryFailureCollected | test.py:18-22 | no failing command is skipped: validation does not stop at the first problem |
| Driver.CollectErrors | test.py:17-22 | the validation pass reports exactly the failing commands, each with its problem, in list order |
| Driver.ValidateEach | test.py:18-22 | the validation loop, one command after another, collects what the validation pass specifies |
| Driver.IntendedLoopCollects | test.py:18-22 | with `validate()` raising the command's problem and `ValidationError` bound, the loop lets nothing escape and collects exactly the errors of the validation pass |
| Driver.ExecuteAll | test.py:28 | executing a list yields one result per command and never changes the name sets |
| Driver.ExecuteAllCache | test.py:28 | a run over a list fills the package cache exactly when some command reaches a package handle |
| Driver.ExecuteAllAppend | test.py:28 | executing a list in two parts, the second against the registry the first left, is executing it whole |
| Driver.EveryCommandTraced | test.py:28 | every command's host actions are in the trace in list order: the trace through the i-th command is the trace before it followed by what that command runs against the registry the earlier ones left |
| Driver.EveryCommandExecuted | test.py:28 | the i-th result is what the i-th command returns against the registry the earlier commands left |
| Driver.OnlyFilesChangeOverall | test.py:28 | over a whole run, the i-th result reports a change exactly when the i-th command is a file |
| Driver.PackageActionOnceOverall | test.py:28 | over a whole run the package manager runs at most once: the whole package action if some command reaches a handle, nothing otherwise |
| Driver.RunAll | test.py:17-28 | the run aborts exactly when some command fails validation, reporting exactly the failures; otherwise every command is executed in list order: the trace and the final registry are those of executing the whole list, the i-th result being the i-th command's against the registry the earlier ones left, and the package manager runs once if any command reaches a handle |
| Driver.ExecuteEach | test.py:28 | executing the commands one by one, threading the registry, computes `ExecuteAll` |
| Driver.Drive | test.py:17-28 | the two loops compute what `RunAll` specifies |
| Commands.ValidateAsWritten | dostuff/commands.py:86-87 | as written, `validate()` raises for every command: the base command has no `validate`, and the package's reads a global `packages` that is not bound |
| Driver.ValidationPassEscapesAsWritten | test.py:18-22 | as written, the loop over any non-empty list stops at its first command with a NameError raised while handling that command's AttributeError or NameError; the intended loop collects exactly the validation errors, and a conflict-free list runs to completion |
| Example.ExampleConstructed | test.py:6-15 | building the list gives a check, a file with source `bar`, three handles on the same package registry, two services configured by files, and a user; the registry holds p1 to p4 to install and p5 to remove |
| Example.ExampleRegistry | test.py:9-11 | the three package calls merge into install = {p1, p2, p3, p4} and remove = {p5} |
| Example.FooBarFile | test.py:8 | `File('/foo/bar')` copies `bar` to `/foo/bar` |
| Example.S1ConfFile | test.py:12 | the first service's config file copies `s1.conf` to `/etc/s1.conf` |
| Example.S2ConfFile | test.py:13 | the second service's config file copies `s2.conf` to `/etc/s2/s2.conf` |
| Example.ExamplePackageSteps | test.py:9-11 | the package action for the example registry is `pacman -Rs p5` then `pacman -S p1 p2 p3 p4` |
| Example.FileConfiguredService | dostuff/commands.py:101-113 | a service configured by a file copies the file, runs its action, then reloads |
| Example.ExampleValidates | test.py:17-22 | no command of the example reports a problem |
| Example.ExampleTailRuns | test.py:12-14 | the services run copy, action, reload each, `disable` for s2, then `useradd --create-home --system bob` |
| Example.ExampleResults | test.py:28 | only the file reports a change |
| Example.ExamplePackageActionOnce | test.py:28 | in the whole run, the package manager runs exactly once: remove p5, then install p1 to p4 |
| Example.ExampleCompletes | test.py:23-28 | the driver does not abort on the example and executes the whole list |
| Example.ExampleRuns | test.py:6-28 | the example completes, only the file reports a change, and the package action runs once with the merged sets |
| Example.ExampleEscapesAsWritten | test.py:18-22 | as written, the example stops at the check with a NameError raised while handling the missing `validate`; the intended driver completes |

## Left out

- Asynchrony, `asyncio.sleep(1)`, waiting on processes and the event loop: a host action is a step in a trace, recorded in the order the code issues it.
- The `echo` in front of every command line: each step is the command line that follows it.
- Concurrency of `asyncio.gather`: commands run one after another in list order, so interleavings of their host actions are not modelled.
- `functools.lru_cache` on an `async` method caches the coroutine object, and awaiting it a second time (a package handle as a service's config, say) fails; the model remembers the first execution's result and returns it on every later execution.
- `Command.__repr__` and the printing of error messages: only the collected errors are modelled.
- `raise SystemExit` after printing the errors: modelled as the `Aborted` outcome.
- The text of the `ValueError` a package conflict raises: the problem carries the conflicting names only.
- `reload` is a `print` in the code, not a process: it is modelled as a `systemctl reload` step in the trace.
- The assertions in the constructors (absolute destination, valid package action) are preconditions; the `isinstance` checks on a service's config and file are enforced by the types.
- `pathlib` details: the special `//` root and Windows paths are not modelled; `..` is kept as an ordinary component, as `PurePosixPath` keeps it.
- `Check` records its path and reason but never uses them, and its `do` reports no change; no existence check is made, so none is modelled. Its `exists` field is called `path` here.
- There is no failed `Result` in the code; results carry only `changed`.
- Example.ExampleRuns: states the results and the package-manager part of the trace, not the whole trace of the run; the services' and user's steps are stated by Example.ExampleTailRuns.

## Findings

| source | as written | input that shows it | evidently intended | confidence | as-written member | corrected member |
|---|---|---|---|---|---|---|
| test.py:18-22 | `command.validate()` is called on every command, but only `Package` defines it and its body reads an unbound global `packages`; the handler names `ValidationError`, which is never defined, and the package raises `ValueError` anyway | the example list: the first command, a `Check`, raises AttributeError, and evaluating `except ValidationError` raises NameError, ending the program before anything runs | commands without checks report nothing, the package checks the registry it declared, and every problem is collected before deciding | not executed | Driver.ValidationPassEscapesAsWritten | Driver.CollectErrors |
| dostuff/commands.py:19-21 | `Nothing.do` returns no value, and `Service.do` reads `changed` off its config's result | `Service('x')` with the default config: reading `changed` off `None` fails after `systemctl enable x` has run | the default config counts as an unchanged result, so no reload follows | not executed | Commands.ServiceDoAsWritten | Commands.DefaultConfigServiceRuns |
