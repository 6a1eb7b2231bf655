/**
 The command layer of dostuff: results, the command variants, the shared
 package registry, and what validating and executing each command does.

 Every host action goes through one external-process call. Here that call
 is a step appended to a trace: the argv the command would run, in order.
 Executing a command is a pure function from a command and the package
 registry to the trace it produces, its result and the registry afterwards.
 */
module Commands {
  import opened Paths
  import opened Ordering

  datatype Option<T> = None | Some(value: T)

  /** The external programs the commands run. */
  datatype Program = Cp | Pacman | Systemctl | Useradd

  /** One external command line: the program and its arguments. */
  datatype Step = Step(program: Program, args: seq<string>)

  /** The name a program is invoked by. */
  function ProgramName(program: Program): string {
    match program
    case Cp => "cp"
    case Pacman => "pacman"
    case Systemctl => "systemctl"
    case Useradd => "useradd"
  }

  /** The argv the step hands to the host: program name first. */
  function Argv(step: Step): seq<string> {
    [ProgramName(step.program)] + step.args
  }

  /** The outcome of executing a command: whether host state was changed. */
  datatype Result = Ok(changed: bool)

  datatype Command =
    | Nothing
      /** A precondition probe; the path and reason are recorded but never used. */
    | Check(path: Option<string> := None, reason: Option<string> := None)
    | File(destination: Path, source: Path)
      /** A handle on the one shared package registry; every handle is the same. */
    | Package
    | Service(name: string, action: string := "enable", config: Command := Nothing, file: Command := Nothing)
    | User(name: string, homedir: bool := false, system: bool := false)

  /**
   The package names declared so far, keyed by action, and the remembered
   result of the batched package action once it has run.
   */
  datatype Registry = Registry(install: set<string>, remove: set<string>, cached: Option<Result>)

  const EmptyRegistry: Registry := Registry({}, {}, None)

  /** What executing a command produced: its host actions, its result, and the registry after it. */
  datatype Run = Run(trace: seq<Step>, result: Result, registry: Registry)

  /** A validation problem: names that are both to be installed and to be removed. */
  datatype Problem = InstalledAndRemoved(names: set<string>)

  /* ---------------------------------------------------------------- construction */

  /**
   `File(destination, source=None)`: the destination must be absolute;
   without a source, the source is the destination's last component as a
   relative path.
   */
  function MakeFile(destination: string, source: Option<string> := None): (f: Command)
    requires IsAbsolute(destination)
    ensures f.File? && f.destination == Parse(destination) && f.destination.absolute
    ensures source.Some? ==> f.source == Parse(source.value)
    ensures source.None? && |f.destination.parts| > 0 ==>
      f.source == Path(false, [f.destination.parts[|f.destination.parts| - 1]])
    ensures source.None? && |f.destination.parts| == 0 ==> f.source == Path(false, [])
  {
    var dst := Parse(destination);
    var src := match source
      case Some(s) => Parse(s)
      case None => Parse(Name(dst));
    if source.None? then
      NameParsesToItself(dst);
      File(dst, src)
    else
      File(dst, src)
  }

  /** Parsing the last component of a parsed path gives that one component back. */
  lemma NameParsesToItself(p: Path)
    requires WellFormed(p)
    ensures |p.parts| > 0 ==> Parse(Name(p)) == Path(false, [Name(p)])
    ensures |p.parts| == 0 ==> Parse(Name(p)) == Path(false, [])
  {
    if |p.parts| > 0 {
      ParseRender(Path(false, [Name(p)]));
    } else {
      assert Split("") == [""];
    }
  }

  predicate ValidAction(action: string) {
    action == "install" || action == "remove"
  }

  /**
   `Package(*names, action='install')`: merges the names into the set the
   action names and hands back the one shared handle. Nothing else in the
   registry changes.
   */
  function NewPackage(reg: Registry, names: seq<string>, action: string := "install"): (made: (Command, Registry))
    requires ValidAction(action)
    ensures made.0 == Package
    ensures made.1.cached == reg.cached
    ensures action == "install" ==>
      made.1.install == reg.install + set n | n in names && made.1.remove == reg.remove
    ensures action == "remove" ==>
      made.1.remove == reg.remove + set n | n in names && made.1.install == reg.install
  {
    var added := set n | n in names;
    if action == "install" then (Package, reg.(install := reg.install + added))
    else (Package, reg.(remove := reg.remove + added))
  }

  /** One `Package(...)` call: the names and the action it was given. */
  datatype Declaration = Declaration(names: seq<string>, action: string)

  predicate AllValid(decls: seq<Declaration>) {
    forall k :: 0 <= k < |decls| ==> ValidAction(decls[k].action)
  }

  /** Some declaration with this action lists this name. */
  ghost predicate Declared(decls: seq<Declaration>, action: string, n: string) {
    exists k :: 0 <= k < |decls| && decls[k].action == action && n in decls[k].names
  }

  /** The registry after a series of `Package(...)` calls, in order. */
  function Declare(reg: Registry, decls: seq<Declaration>): (out: Registry)
    requires AllValid(decls)
    ensures out.cached == reg.cached
    ensures forall n :: n in out.install <==> n in reg.install || Declared(decls, "install", n)
    ensures forall n :: n in out.remove <==> n in reg.remove || Declared(decls, "remove", n)
    decreases |decls|
  {
    if |decls| == 0 then reg
    else
      var next := NewPackage(reg, decls[0].names, decls[0].action).1;
      var out := Declare(next, decls[1..]);
      assert forall n, action :: Declared(decls, action, n) <==>
        (decls[0].action == action && n in decls[0].names) || Declared(decls[1..], action, n) by {
        forall n, action
          ensures Declared(decls, action, n) ==>
            (decls[0].action == action && n in decls[0].names) || Declared(decls[1..], action, n)
        {
          if Declared(decls, action, n) {
            var k :| 0 <= k < |decls| && decls[k].action == action && n in decls[k].names;
            if k > 0 {
              assert decls[1..][k - 1] == decls[k];
            }
          }
        }
        forall n, action | Declared(decls[1..], action, n)
          ensures Declared(decls, action, n)
        {
          var k :| 0 <= k < |decls[1..]| && decls[1..][k].action == action && n in decls[1..][k].names;
          assert decls[k + 1] == decls[1..][k];
        }
      }
      out
  }

  /**
   The order and multiplicity of `Package(...)` calls do not matter: two
   series that make the same declarations leave the same registry.
   */
  lemma DeclareOrderIrrelevant(reg: Registry, d1: seq<Declaration>, d2: seq<Declaration>)
    requires AllValid(d1) && AllValid(d2)
    requires forall d :: d in d1 <==> d in d2
    ensures Declare(reg, d1) == Declare(reg, d2)
  {
    var r1 := Declare(reg, d1);
    var r2 := Declare(reg, d2);
    forall n, action | Declared(d1, action, n)
      ensures Declared(d2, action, n)
    {
      var k :| 0 <= k < |d1| && d1[k].action == action && n in d1[k].names;
      assert d1[k] in d2;
      var j :| 0 <= j < |d2| && d2[j] == d1[k];
    }
    forall n, action | Declared(d2, action, n)
      ensures Declared(d1, action, n)
    {
      var k :| 0 <= k < |d2| && d2[k].action == action && n in d2[k].names;
      assert d2[k] in d1;
      var j :| 0 <= j < |d1| && d1[j] == d2[k];
    }
    assert r1.install == r2.install;
    assert r1.remove == r2.remove;
  }

  /* ---------------------------------------------------------------- execution */

  /** A host action of the package manager. */
  predicate IsPacman(step: Step) {
    step.program == Pacman
  }

  /**
   The batched package action for the registry's sets: remove, then install,
   each only when its set is non-empty, each with its names in sorted order.
   */
  function PackageSteps(remove: set<string>, install: set<string>): (steps: seq<Step>)
    ensures |steps| == (if remove != {} then 1 else 0) + (if install != {} then 1 else 0)
    ensures forall k :: 0 <= k < |steps| ==> steps[k].program == Pacman
    ensures remove != {} ==> steps[0].args == ["-Rs"] + Sorted(remove)
    ensures install != {} ==> steps[|steps| - 1].args == ["-S"] + Sorted(install)
  {
    var removing := if remove != {} then [Step(Pacman, ["-Rs"] + Sorted(remove))] else [];
    var installing := if install != {} then [Step(Pacman, ["-S"] + Sorted(install))] else [];
    removing + installing
  }

  /**
   Each package-manager call lists the names of its set once each, in
   ascending order, and no other names.
   */
  lemma PackageStepsListNames(remove: set<string>, install: set<string>)
    ensures remove != {} ==>
      && StrictlyAscending(PackageSteps(remove, install)[0].args[1..])
      && forall n :: n in PackageSteps(remove, install)[0].args[1..] <==> n in remove
    ensures install != {} ==>
      && StrictlyAscending(PackageSteps(remove, install)[|PackageSteps(remove, install)| - 1].args[1..])
      && forall n :: n in PackageSteps(remove, install)[|PackageSteps(remove, install)| - 1].args[1..] <==> n in install
  {
    SortedListing(remove);
    SortedListing(install);
    assert (["-Rs"] + Sorted(remove))[1..] == Sorted(remove);
    assert (["-S"] + Sorted(install))[1..] == Sorted(install);
  }

  /** The package-manager steps of a trace, in order. */
  function PacmanSteps(trace: seq<Step>): (steps: seq<Step>)
    ensures |steps| <= |trace|
    ensures forall k :: 0 <= k < |steps| ==> IsPacman(steps[k])
    decreases |trace|
  {
    if |trace| == 0 then []
    else (if IsPacman(trace[0]) then [trace[0]] else []) + PacmanSteps(trace[1..])
  }

  lemma {:induction false} PacmanStepsAppend(a: seq<Step>, b: seq<Step>)
    ensures PacmanSteps(a + b) == PacmanSteps(a) + PacmanSteps(b)
    decreases |a|
  {
    if |a| == 0 {
      assert a + b == b;
    } else {
      assert (a + b)[1..] == a[1..] + b;
      PacmanStepsAppend(a[1..], b);
    }
  }

  lemma {:induction false} PacmanStepsOfPacman(trace: seq<Step>)
    requires forall k :: 0 <= k < |trace| ==> IsPacman(trace[k])
    ensures PacmanSteps(trace) == trace
    decreases |trace|
  {
    if |trace| > 0 {
      PacmanStepsOfPacman(trace[1..]);
      assert trace == [trace[0]] + trace[1..];
    }
  }

  lemma {:induction false} PacmanStepsOfOthers(trace: seq<Step>)
    requires forall k :: 0 <= k < |trace| ==> !IsPacman(trace[k])
    ensures PacmanSteps(trace) == []
    decreases |trace|
  {
    if |trace| > 0 {
      PacmanStepsOfOthers(trace[1..]);
    }
  }

  /** The command is a package handle, or a service that reaches one through its sub-commands. */
  predicate UsesPackage(cmd: Command) {
    match cmd
    case Package => true
    case Service(_, _, config, file) => UsesPackage(config) || UsesPackage(file)
    case _ => false
  }

  /**
   Execute a command against the package registry.

   The registry's name sets are never changed by execution. Its cache is
   filled the first time a package handle is reached and never cleared.
   */
  function Execute(cmd: Command, reg: Registry): (out: Run)
    ensures out.registry.install == reg.install && out.registry.remove == reg.remove
    ensures out.registry.cached ==
      if reg.cached.None? && UsesPackage(cmd) then Some(Ok(false)) else reg.cached
    decreases cmd
  {
    match cmd
    case Nothing => Run([], Ok(false), reg)
    case Check(_, _) => Run([], Ok(false), reg)
    case File(destination, source) => Run([Step(Cp, [Render(source), Render(destination)])], Ok(true), reg)
    case Package =>
      if reg.cached.Some? then Run([], reg.cached.value, reg)
      else Run(PackageSteps(reg.remove, reg.install), Ok(false), reg.(cached := Some(Ok(false))))
    case Service(name, action, config, file) =>
      var configRun := Execute(config, reg);
      var fileRun := Execute(file, configRun.registry);
      Run(configRun.trace + fileRun.trace + ServiceSteps(name, action, configRun.result), Ok(false), fileRun.registry)
    case User(name, homedir, system) => Run([Step(Useradd, UserArgs(name, homedir, system))], Ok(false), reg)
  }

  /**
   The package-manager steps a command produces are the whole batched
   package action when this execution is the first to reach a package
   handle, and nothing otherwise.
   */
  lemma {:induction false} PackageActionOnce(cmd: Command, reg: Registry)
    ensures PacmanSteps(Execute(cmd, reg).trace) ==
      if reg.cached.None? && UsesPackage(cmd) then PackageSteps(reg.remove, reg.install) else []
    decreases cmd
  {
    match cmd
    case Nothing =>
    case Check(_, _) =>
    case File(destination, source) =>
      PacmanStepsOfOthers(Execute(cmd, reg).trace);
    case Package =>
      if reg.cached.None? {
        PacmanStepsOfPacman(PackageSteps(reg.remove, reg.install));
      }
    case Service(name, action, config, file) =>
      var configRun := Execute(config, reg);
      var fileRun := Execute(file, configRun.registry);
      PackageActionOnce(config, reg);
      PackageActionOnce(file, configRun.registry);
      SubTracesPacman(configRun.trace, fileRun.trace, ServiceSteps(name, action, configRun.result),
        PackageSteps(reg.remove, reg.install),
        reg.cached.None? && UsesPackage(config), configRun.registry.cached.None? && UsesPackage(file));
    case User(name, homedir, system) =>
      PacmanStepsOfOthers(Execute(cmd, reg).trace);
  }

  /**
   A trace made of two sub-traces, at most one of which holds `whole` as its
   package-manager steps, followed by steps that are not package-manager
   calls, holds `whole` or nothing.
   */
  lemma SubTracesPacman(first: seq<Step>, second: seq<Step>, own: seq<Step>, whole: seq<Step>, inFirst: bool, inSecond: bool)
    requires PacmanSteps(first) == if inFirst then whole else []
    requires PacmanSteps(second) == if inSecond then whole else []
    requires !(inFirst && inSecond)
    requires forall k :: 0 <= k < |own| ==> own[k].program == Systemctl
    ensures PacmanSteps(first + second + own) == if inFirst || inSecond then whole else []
  {
    PacmanStepsAppend(first, second);
    PacmanStepsAppend(first + second, own);
    PacmanStepsOfOthers(own);
    AtMostOneOf(PacmanSteps(first), PacmanSteps(second), whole, inFirst, inSecond);
  }

  /** Two pieces that are each either `whole` or empty, not both `whole`, join to `whole` or empty. */
  lemma AtMostOneOf(first: seq<Step>, second: seq<Step>, whole: seq<Step>, inFirst: bool, inSecond: bool)
    requires first == if inFirst then whole else []
    requires second == if inSecond then whole else []
    requires !(inFirst && inSecond)
    ensures first + second == if inFirst || inSecond then whole else []
  {
    if inFirst {
      assert first + second == whole + [];
    } else {
      assert first + second == [] + second;
    }
  }

  /** The service's own steps after its sub-commands: its action, then a reload if the config changed. */
  function ServiceSteps(name: string, action: string, configResult: Result): (steps: seq<Step>)
    ensures |steps| == if configResult.changed then 2 else 1
    ensures forall k :: 0 <= k < |steps| ==> steps[k].program == Systemctl
    ensures steps[0] == Step(Systemctl, [action, name])
    ensures configResult.changed ==> steps[1] == Step(Systemctl, ["reload", name])
  {
    [Step(Systemctl, [action, name])] + (if configResult.changed then [Step(Systemctl, ["reload", name])] else [])
  }

  /** The arguments of `useradd [--create-home] [--system] <name>`. */
  function UserArgs(name: string, homedir: bool, system: bool): (args: seq<string>)
    ensures |args| == 1 + (if homedir then 1 else 0) + (if system then 1 else 0)
    ensures args[|args| - 1] == name
    ensures "--create-home" in args[..|args| - 1] <==> homedir
    ensures "--system" in args[..|args| - 1] <==> system
    ensures homedir && system ==> args[0] == "--create-home" && args[1] == "--system"
  {
    var flags := (if homedir then ["--create-home"] else []) + (if system then ["--system"] else []);
    assert (flags + [name])[..|flags|] == flags;
    flags + [name]
  }

  /**
   Only a file reports a change. Every other command reports none,
   the package action included, since its remembered result is no change.
   */
  lemma OnlyFilesChange(cmd: Command, reg: Registry)
    requires reg.cached.None? || reg.cached == Some(Ok(false))
    ensures Execute(cmd, reg).result == Ok(cmd.File?)
  {
  }

  /** `Nothing` and `Check` touch nothing and report no change, whatever the check names. */
  lemma LeavesDoNothing(cmd: Command, reg: Registry)
    requires cmd.Nothing? || cmd.Check?
    ensures Execute(cmd, reg) == Run([], Ok(false), reg)
  {
  }

  /** A file is placed by exactly one `cp <source> <destination>` and always reports a change. */
  lemma FileCopiesOnce(destination: string, source: Option<string>, reg: Registry)
    requires IsAbsolute(destination)
    ensures var f := MakeFile(destination, source);
      Execute(f, reg) == Run([Step(Cp, [Render(f.source), Render(f.destination)])], Ok(true), reg)
  {
  }

  /** `File("/a/b")` copies `b` to `/a/b`. */
  lemma FileExample()
    ensures Argv(Execute(MakeFile("/a/b"), EmptyRegistry).trace[0]) == ["cp", "b", "/a/b"]
    ensures |Execute(MakeFile("/a/b"), EmptyRegistry).trace| == 1
  {
    var f := MakeFile("/a/b");
    ParseRender(Path(true, ["a", "b"]));
    assert Render(Path(true, ["a", "b"])) == "/a/b";
    assert f.destination == Path(true, ["a", "b"]);
    assert f.source == Path(false, ["b"]);
  }

  /**
   A user is created by one `useradd` whose flags are exactly the requested
   ones, `--create-home` before `--system`, with the name last; it never
   reports a change.
   */
  lemma UserAddsOnce(name: string, homedir: bool, system: bool, reg: Registry)
    ensures var out := Execute(User(name, homedir, system), reg);
      |out.trace| == 1 && out.trace[0] == Step(Useradd, UserArgs(name, homedir, system)) &&
      out.result == Ok(false) && out.registry == reg
  {
  }

  /**
   A service runs its config, then its file, then `systemctl <action> <name>`,
   then `systemctl reload <name>` exactly when the config reported a change.
   Its own result never reports a change, whatever its sub-commands reported.
   */
  lemma ServiceOrder(name: string, action: string, config: Command, file: Command, reg: Registry,
                     configRun: Run, fileRun: Run)
    requires configRun == Execute(config, reg)
    requires fileRun == Execute(file, configRun.registry)
    ensures var out := Execute(Service(name, action, config, file), reg);
      && |out.trace| == |configRun.trace| + |fileRun.trace| + (if configRun.result.changed then 2 else 1)
      && out.trace[..|configRun.trace|] == configRun.trace
      && out.trace[|configRun.trace|..|configRun.trace| + |fileRun.trace|] == fileRun.trace
      && out.trace[|configRun.trace| + |fileRun.trace|] == Step(Systemctl, [action, name])
      && (configRun.result.changed ==>
            out.trace[|configRun.trace| + |fileRun.trace| + 1] == Step(Systemctl, ["reload", name]))
      && out.result == Ok(false)
  {
    ConcatLayout(configRun.trace, fileRun.trace, ServiceSteps(name, action, configRun.result));
  }

  lemma ConcatLayout(a: seq<Step>, b: seq<Step>, c: seq<Step>)
    ensures |a + b + c| == |a| + |b| + |c|
    ensures (a + b + c)[..|a|] == a
    ensures (a + b + c)[|a|..|a| + |b|] == b
    ensures |c| > 0 ==> (a + b + c)[|a| + |b|] == c[0]
    ensures |c| > 1 ==> (a + b + c)[|a| + |b| + 1] == c[1]
  {
  }

  /**
   However many times the package action is executed, through whichever
   handles, only the first execution performs host actions; every
   execution returns the same result.
   */
  lemma {:induction false} PackageRunsOnce(reg: Registry, n: nat)
    requires reg.cached.None? || reg.cached == Some(Ok(false))
    ensures var out := ExecuteRepeatedly(Package, reg, n);
      && out.trace == (if n > 0 && reg.cached.None? then PackageSteps(reg.remove, reg.install) else [])
      && (forall k :: 0 <= k < |out.results| ==> out.results[k] == Ok(false))
      && |out.results| == n
    decreases n
  {
    if n > 0 {
      var first := Execute(Package, reg);
      PackageRunsOnce(first.registry, n - 1);
    }
  }

  /** What executing the same command n times in a row produced. */
  datatype Repeated = Repeated(trace: seq<Step>, results: seq<Result>)

  function ExecuteRepeatedly(cmd: Command, reg: Registry, n: nat): Repeated
    decreases n
  {
    if n == 0 then Repeated([], [])
    else
      var first := Execute(cmd, reg);
      var rest := ExecuteRepeatedly(cmd, first.registry, n - 1);
      Repeated(first.trace + rest.trace, [first.result] + rest.results)
  }

  /* ---------------------------------------------------------------- validation */

  /** A name lies in both sets exactly when their intersection is non-empty. */
  lemma SharedNames(a: set<string>, b: set<string>)
    ensures a * b != {} <==> exists n :: n in a && n in b
  {
    if a * b != {} {
      var n :| n in a * b;
      assert n in a && n in b;
    } else {
      forall n | n in a
        ensures n !in b
      {
        assert n !in a * b;
      }
    }
  }

  /**
   `validate()`: only a package handle has checks of its own, and it reports
   a problem exactly when some name is both to be installed and to be
   removed, naming exactly those names; every other command keeps the
   default, which reports nothing.
   */
  function Validate(cmd: Command, reg: Registry): (problem: Option<Problem>)
    ensures problem.Some? <==> cmd.Package? && exists n :: n in reg.install && n in reg.remove
    ensures problem.Some? ==> forall n :: n in problem.value.names <==> n in reg.install && n in reg.remove
  {
    SharedNames(reg.install, reg.remove);
    var both := reg.install * reg.remove;
    if cmd.Package? && both != {} then Some(InstalledAndRemoved(both)) else None
  }

  /* ---------------------------------------------------------------- as written */

  /** An exception raised during the validation pass: a Python error, or a validation failure. */
  datatype Raised = AttributeError(attribute: string) | NameError(name: string) | Failed(problem: Problem)

  /**
   `command.validate()` as written: it always raises. The base command
   defines no `validate`, and the package's reads a global `packages` that
   does not exist (the registry is the class attribute).
   */
  function ValidateAsWritten(cmd: Command): (raised: Option<Raised>)
    ensures raised.Some?
  {
    if cmd.Package? then Some(NameError("packages")) else Some(AttributeError("validate"))
  }

  /** `Nothing.do` as written returns no value at all. */
  function NothingDoAsWritten(): (returned: Option<Result>)
    ensures returned.None?
  {
    None
  }

  /**
   `Service.do` as written, once its config's and file's `do` have returned:
   the steps the service then runs itself, and its result, which is None
   where the code raises. The `systemctl` action is issued before
   `config_result.changed` is read, so it has run even when that read
   raises on a config that returned no value.
   */
  function ServiceDoAsWritten(name: string, action: string, configResult: Option<Result>): (out: (seq<Step>, Option<Result>))
    ensures |out.0| >= 1 && out.0[0] == Step(Systemctl, [action, name])
    ensures out.1.None? <==> configResult.None?
    ensures configResult.Some? ==> out == (ServiceSteps(name, action, configResult.value), Some(Ok(false)))
  {
    var own := [Step(Systemctl, [action, name])];
    match configResult
    case None => (own, None)
    case Some(r) => (own + (if r.changed then [Step(Systemctl, ["reload", name])] else []), Some(Ok(false)))
  }

  /**
   As written, a service with the default config issues its `systemctl`
   action and then raises when it reads `changed` off the config's missing
   result, so no reload follows and no result is returned.
   */
  lemma DefaultConfigRaisesAsWritten(name: string, action: string)
    ensures ServiceDoAsWritten(name, action, NothingDoAsWritten()) == ([Step(Systemctl, [action, name])], None)
  {
  }

  /** Here, a service with the default config and file just runs its own action. */
  lemma DefaultConfigServiceRuns(name: string, action: string, reg: Registry)
    ensures Execute(Service(name, action, Nothing, Nothing), reg) ==
      Run([Step(Systemctl, [action, name])], Ok(false), reg)
  {
    assert Execute(Nothing, reg).trace == [];
    assert [] + [] + ServiceSteps(name, action, Ok(false)) == [Step(Systemctl, [action, name])];
  }
}
