/**
 The command list test.py builds and hands to the driver: a check, a file,
 three package declarations, two services with config files, and a user.
 Building the list fills the package registry as a side effect; the
 registry that results is handed to the driver with the list.
 */
module Example {
  import opened Paths
  import opened Ordering
  import opened Commands
  import opened Driver

  /** The three `Package(...)` calls of the list, in order: their handles and the registry after them. */
  function DeclarePackages(): (Command, Command, Command, Registry) {
    var (p1, r1) := NewPackage(EmptyRegistry, ["p1", "p2", "p3"]);
    var (p2, r2) := NewPackage(r1, ["p2", "p3", "p4"]);
    var (p3, r3) := NewPackage(r2, ["p5"], "remove");
    (p1, p2, p3, r3)
  }

  /** The list, in order, and the registry its construction leaves. */
  function ExampleList(): (seq<Command>, Registry) {
    var (p1, p2, p3, reg) := DeclarePackages();
    var cmds := [
      Check(path := Some("foo")),
      MakeFile("/foo/bar"),
      p1,
      p2,
      p3,
      Service("s1", config := MakeFile("/etc/s1.conf")),
      Service("s2", action := "disable", config := MakeFile("/etc/s2/s2.conf")),
      User("bob", homedir := true, system := true)
    ];
    (cmds, reg)
  }

  /** The commands of the list as values, once every constructor has run. */
  const BuiltCommands: seq<Command> := [
    Check(Some("foo"), None),
    File(Path(true, ["foo", "bar"]), Path(false, ["bar"])),
    Package,
    Package,
    Package,
    Service("s1", "enable", File(Path(true, ["etc", "s1.conf"]), Path(false, ["s1.conf"])), Nothing),
    Service("s2", "disable", File(Path(true, ["etc", "s2", "s2.conf"]), Path(false, ["s2.conf"])), Nothing),
    User("bob", true, true)
  ]

  /** The registry once the list has been built. */
  const BuiltRegistry: Registry := Registry({"p1", "p2", "p3", "p4"}, {"p5"}, None)

  /**
   Building the list yields these commands: each file's source is the last
   component of its destination, every package call hands back the same
   handle, and the registry holds p1 to p4 to install and p5 to remove.
   */
  lemma ExampleConstructed()
    ensures ExampleList() == (BuiltCommands, BuiltRegistry)
  {
    ExampleRegistry();
    FooBarFile();
    S1ConfFile();
    S2ConfFile();
  }

  /** The three declarations merge into one registry: p1 to p4 to install, p5 to remove. */
  lemma ExampleRegistry()
    ensures DeclarePackages() == (Package, Package, Package, Registry({"p1", "p2", "p3", "p4"}, {"p5"}, None))
  {
    var (p1, r1) := NewPackage(EmptyRegistry, ["p1", "p2", "p3"]);
    var (p2, r2) := NewPackage(r1, ["p2", "p3", "p4"]);
    var (p3, r3) := NewPackage(r2, ["p5"], "remove");
    assert r1 == Registry({"p1", "p2", "p3"}, {}, None);
    assert r2 == Registry({"p1", "p2", "p3", "p4"}, {}, None);
    assert r3 == Registry({"p1", "p2", "p3", "p4"}, {"p5"}, None);
  }

  lemma FooBarFile()
    ensures MakeFile("/foo/bar") == File(Path(true, ["foo", "bar"]), Path(false, ["bar"]))
  {
    ParseRender(Path(true, ["foo", "bar"]));
    assert Render(Path(true, ["foo", "bar"])) == "/foo/bar";
  }

  lemma S1ConfFile()
    ensures MakeFile("/etc/s1.conf") == File(Path(true, ["etc", "s1.conf"]), Path(false, ["s1.conf"]))
  {
    ParseRender(Path(true, ["etc", "s1.conf"]));
    assert Render(Path(true, ["etc", "s1.conf"])) == "/etc/s1.conf";
  }

  lemma S2ConfFile()
    ensures MakeFile("/etc/s2/s2.conf") == File(Path(true, ["etc", "s2", "s2.conf"]), Path(false, ["s2.conf"]))
  {
    ParseRender(Path(true, ["etc", "s2", "s2.conf"]));
    assert Render(Path(true, ["etc", "s2", "s2.conf"])) == "/etc/s2/s2.conf";
  }

  /** How the example's paths print. */
  lemma ExampleRenders()
    ensures Render(Path(true, ["foo", "bar"])) == "/foo/bar" && Render(Path(false, ["bar"])) == "bar"
    ensures Render(Path(true, ["etc", "s1.conf"])) == "/etc/s1.conf" && Render(Path(false, ["s1.conf"])) == "s1.conf"
    ensures Render(Path(true, ["etc", "s2", "s2.conf"])) == "/etc/s2/s2.conf" && Render(Path(false, ["s2.conf"])) == "s2.conf"
  {
  }

  /** Two-character names that differ only in their second character compare by it. */
  lemma BelowBySecond(a: string, b: string)
    requires |a| == 2 && |b| == 2 && a[0] == b[0] && a[1] < b[1]
    ensures Below(a, b) && a != b
  {
    assert a[1..][1..] == [];
  }

  /** The batched package action for the example registry. */
  lemma ExamplePackageSteps()
    ensures PackageSteps({"p5"}, {"p1", "p2", "p3", "p4"}) ==
      [Step(Pacman, ["-Rs", "p5"]), Step(Pacman, ["-S", "p1", "p2", "p3", "p4"])]
  {
    InstallListing();
    RemoveListing();
    assert "p5" in {"p5"} && "p1" in {"p1", "p2", "p3", "p4"};
    assert PackageSteps({"p5"}, {"p1", "p2", "p3", "p4"}) ==
      [Step(Pacman, ["-Rs"] + ["p5"])] + [Step(Pacman, ["-S"] + ["p1", "p2", "p3", "p4"])];
    assert ["-Rs"] + ["p5"] == ["-Rs", "p5"];
    assert ["-S"] + ["p1", "p2", "p3", "p4"] == ["-S", "p1", "p2", "p3", "p4"];
  }

  lemma InstallListing()
    ensures Sorted({"p1", "p2", "p3", "p4"}) == ["p1", "p2", "p3", "p4"]
  {
    var names := ["p1", "p2", "p3", "p4"];
    forall i, j | 0 <= i < j < |names|
      ensures Below(names[i], names[j]) && names[i] != names[j]
    {
      BelowBySecond(names[i], names[j]);
    }
    SortedIsTheAscendingListing(names, {"p1", "p2", "p3", "p4"});
  }

  lemma RemoveListing()
    ensures Sorted({"p5"}) == ["p5"]
  {
    BelowReflexive("p5");
    SortedIsTheAscendingListing(["p5"], {"p5"});
  }

  /** A service configured by a file and with no file command of its own: copy, its action, reload. */
  lemma FileConfiguredService(name: string, action: string, config: Command, reg: Registry)
    requires config.File?
    ensures Execute(Service(name, action, config, Nothing), reg) ==
      Run([Step(Cp, [Render(config.source), Render(config.destination)]),
           Step(Systemctl, [action, name]),
           Step(Systemctl, ["reload", name])], Ok(false), reg)
  {
    assert [Step(Cp, [Render(config.source), Render(config.destination)])] + [] +
      ServiceSteps(name, action, Ok(true)) ==
      [Step(Cp, [Render(config.source), Render(config.destination)]),
       Step(Systemctl, [action, name]),
       Step(Systemctl, ["reload", name])];
  }

  /** Executing the list from position k: that command, then the rest against the registry it left. */
  lemma ExecuteFrom(cmds: seq<Command>, k: nat, reg: Registry)
    requires k < |cmds|
    ensures ExecuteAll(cmds[k..], reg) ==
      var first := Execute(cmds[k], reg);
      var rest := ExecuteAll(cmds[k + 1..], first.registry);
      Batch(first.trace + rest.trace, [first.result] + rest.results, rest.registry)
  {
    assert cmds[k..][1..] == cmds[k + 1..];
  }

  /** Nothing in the example is both to be installed and to be removed, so no command reports a problem. */
  lemma ExampleValidates()
    ensures forall i :: 0 <= i < |BuiltCommands| ==> Validate(BuiltCommands[i], BuiltRegistry).None?
  {
    assert {"p1", "p2", "p3", "p4"} * {"p5"} == {};
  }

  /** The list's last three commands, run once the package action is cached: two services, then the user. */
  lemma ExampleTailRuns(reg: Registry)
    ensures ExecuteAll(BuiltCommands[5..], reg) == Batch([
        Step(Cp, ["s1.conf", "/etc/s1.conf"]),
        Step(Systemctl, ["enable", "s1"]),
        Step(Systemctl, ["reload", "s1"]),
        Step(Cp, ["s2.conf", "/etc/s2/s2.conf"]),
        Step(Systemctl, ["disable", "s2"]),
        Step(Systemctl, ["reload", "s2"]),
        Step(Useradd, ["--create-home", "--system", "bob"])
      ], [Ok(false), Ok(false), Ok(false)], reg)
  {
    ExampleRenders();
    var cmds := BuiltCommands;
    FileConfiguredService("s1", "enable", cmds[5].config, reg);
    FileConfiguredService("s2", "disable", cmds[6].config, reg);
    var user := [Step(Useradd, ["--create-home", "--system", "bob"])];
    var second := [Step(Cp, ["s2.conf", "/etc/s2/s2.conf"]), Step(Systemctl, ["disable", "s2"]), Step(Systemctl, ["reload", "s2"])];
    var first := [Step(Cp, ["s1.conf", "/etc/s1.conf"]), Step(Systemctl, ["enable", "s1"]), Step(Systemctl, ["reload", "s1"])];
    assert cmds[8..] == [];
    ExecuteFrom(cmds, 7, reg);
    assert UserArgs("bob", true, true) == ["--create-home", "--system", "bob"];
    assert ExecuteAll(cmds[7..], reg) == Batch(user, [Ok(false)], reg);
    ExecuteFrom(cmds, 6, reg);
    assert ExecuteAll(cmds[6..], reg) == Batch(second + user, [Ok(false), Ok(false)], reg);
    ExecuteFrom(cmds, 5, reg);
    assert ExecuteAll(cmds[5..], reg) == Batch(first + (second + user), [Ok(false), Ok(false), Ok(false)], reg);
  }

  /** Each command's result: only the file reports a change. */
  lemma ExampleResults(reg: Registry)
    requires reg.cached.None?
    ensures ExecuteAll(BuiltCommands, reg).results ==
      [Ok(false), Ok(true), Ok(false), Ok(false), Ok(false), Ok(false), Ok(false), Ok(false)]
  {
    OnlyFilesChangeOverall(BuiltCommands, reg);
  }

  /** The package manager runs once in the whole run: remove p5, then install p1 to p4. */
  lemma ExamplePackageActionOnce()
    ensures PacmanSteps(ExecuteAll(BuiltCommands, BuiltRegistry).trace) ==
      [Step(Pacman, ["-Rs", "p5"]), Step(Pacman, ["-S", "p1", "p2", "p3", "p4"])]
  {
    PackageActionOnceOverall(BuiltCommands, BuiltRegistry);
    assert UsesPackage(BuiltCommands[2]);
    ExamplePackageSteps();
  }

  /** No command of the example reports a problem, so the driver executes the whole list. */
  lemma ExampleCompletes()
    ensures var batch := ExecuteAll(BuiltCommands, BuiltRegistry);
      RunAll(BuiltCommands, BuiltRegistry) == Completed(batch.trace, batch.results, batch.registry)
  {
    ExampleValidates();
  }

  /**
   The example passes validation, so every command runs: only the file
   reports a change, and the package manager runs once, removing p5 and
   then installing p1 to p4.
   */
  lemma ExampleRuns()
    ensures var outcome := RunAll(BuiltCommands, BuiltRegistry);
      && outcome.Completed?
      && outcome.results == [Ok(false), Ok(true), Ok(false), Ok(false), Ok(false), Ok(false), Ok(false), Ok(false)]
      && PacmanSteps(outcome.trace) == [Step(Pacman, ["-Rs", "p5"]), Step(Pacman, ["-S", "p1", "p2", "p3", "p4"])]
  {
    ExampleCompletes();
    ExampleResults(BuiltRegistry);
    ExamplePackageActionOnce();
  }

  /** As written, the example stops at the check with a NameError; the intended driver runs all eight commands. */
  lemma ExampleEscapesAsWritten()
    ensures ValidationPassAsWritten(BuiltCommands) ==
      Escaped(0, NameError("ValidationError"), Some(AttributeError("validate")))
    ensures RunAll(BuiltCommands, BuiltRegistry).Completed?
  {
    ExampleCompletes();
  }
}
