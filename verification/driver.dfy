/**
 The two-phase driver of test.py: validate every command, collecting each
 problem with the command that reported it; stop before executing anything
 if there was a problem; otherwise execute every command.

 Validation reads the registry as it stands once the whole command list
 has been constructed. Execution is sequential in list order, threading
 the registry from one command to the next.
 */
module Driver {
  import opened Commands

  /** A reported problem, with the command that reported it and its position in the list. */
  datatype Error = Error(position: nat, command: Command, problem: Problem)

  /** The error names a command at or after `start`, and that command's validation reported its problem. */
  ghost predicate IsFailureFrom(cmds: seq<Command>, reg: Registry, start: nat, e: Error) {
    && start <= e.position < |cmds|
    && e.command == cmds[e.position]
    && Validate(cmds[e.position], reg) == Some(e.problem)
  }

  /** Some error names position i. */
  ghost predicate Reported(errors: seq<Error>, i: nat) {
    exists k :: 0 <= k < |errors| && errors[k].position == i
  }

  /**
   The errors are exactly the commands whose validation reports a problem,
   each with that problem, in list order.
   */
  ghost predicate ReportsExactlyFailures(cmds: seq<Command>, reg: Registry, errors: seq<Error>) {
    && (forall k :: 0 <= k < |errors| ==> IsFailureFrom(cmds, reg, 0, errors[k]))
    && (forall k, l :: 0 <= k < l < |errors| ==> errors[k].position < errors[l].position)
    && (forall i :: 0 <= i < |cmds| && Validate(cmds[i], reg).Some? ==> Reported(errors, i))
  }

  /** The validation pass from position `start` on: each command in turn, none skipped. */
  function CollectErrorsFrom(cmds: seq<Command>, reg: Registry, start: nat): seq<Error>
    requires start <= |cmds|
    decreases |cmds| - start
  {
    if start == |cmds| then []
    else
      var rest := CollectErrorsFrom(cmds, reg, start + 1);
      match Validate(cmds[start], reg)
      case Some(p) => [Error(start, cmds[start], p)] + rest
      case None => rest
  }

  /** Each collected error is a command at or after `start` whose validation reported that problem. */
  lemma {:induction false} ErrorsAreFailures(cmds: seq<Command>, reg: Registry, start: nat)
    requires start <= |cmds|
    ensures forall k :: 0 <= k < |CollectErrorsFrom(cmds, reg, start)| ==>
      IsFailureFrom(cmds, reg, start, CollectErrorsFrom(cmds, reg, start)[k])
    decreases |cmds| - start
  {
    if start < |cmds| {
      ErrorsAreFailures(cmds, reg, start + 1);
      var rest := CollectErrorsFrom(cmds, reg, start + 1);
      var errors := CollectErrorsFrom(cmds, reg, start);
      match Validate(cmds[start], reg) {
        case Some(p) =>
          assert errors == [Error(start, cmds[start], p)] + rest;
          forall k | 0 < k < |errors|
            ensures errors[k] == rest[k - 1]
          {
          }
        case None =>
          assert errors == rest;
      }
    }
  }

  /** The collected errors are in list order. */
  lemma {:induction false} ErrorsInListOrder(cmds: seq<Command>, reg: Registry, start: nat)
    requires start <= |cmds|
    ensures forall k, l :: 0 <= k < l < |CollectErrorsFrom(cmds, reg, start)| ==>
      CollectErrorsFrom(cmds, reg, start)[k].position < CollectErrorsFrom(cmds, reg, start)[l].position
    decreases |cmds| - start
  {
    if start < |cmds| {
      ErrorsInListOrder(cmds, reg, start + 1);
      ErrorsAreFailures(cmds, reg, start + 1);
      var rest := CollectErrorsFrom(cmds, reg, start + 1);
      var errors := CollectErrorsFrom(cmds, reg, start);
      match Validate(cmds[start], reg) {
        case Some(p) =>
          assert errors == [Error(start, cmds[start], p)] + rest;
          forall k, l | 0 <= k < l < |errors|
            ensures errors[k].position < errors[l].position
          {
            assert errors[l] == rest[l - 1];
            if k > 0 {
              assert errors[k] == rest[k - 1];
            }
          }
        case None =>
          assert errors == rest;
      }
    }
  }

  /** Every command at or after `start` whose validation reports a problem is among the errors. */
  lemma {:induction false} EveryFailureCollected(cmds: seq<Command>, reg: Registry, start: nat)
    requires start <= |cmds|
    ensures forall i :: start <= i < |cmds| && Validate(cmds[i], reg).Some? ==>
      Reported(CollectErrorsFrom(cmds, reg, start), i)
    decreases |cmds| - start
  {
    if start < |cmds| {
      EveryFailureCollected(cmds, reg, start + 1);
      var rest := CollectErrorsFrom(cmds, reg, start + 1);
      var errors := CollectErrorsFrom(cmds, reg, start);
      forall i | start <= i < |cmds| && Validate(cmds[i], reg).Some?
        ensures Reported(errors, i)
      {
        match Validate(cmds[start], reg) {
          case Some(p) =>
            assert errors == [Error(start, cmds[start], p)] + rest;
            if i == start {
              assert errors[0].position == i;
            } else {
              var k :| 0 <= k < |rest| && rest[k].position == i;
              assert errors[k + 1] == rest[k];
            }
          case None =>
            var k :| 0 <= k < |rest| && rest[k].position == i;
            assert errors[k] == rest[k];
        }
      }
    }
  }

  /**
   The validation pass over the whole list: every command is validated, none
   is skipped, and the errors are exactly the failing commands, each with its
   problem, in list order.
   */
  function CollectErrors(cmds: seq<Command>, reg: Registry): (errors: seq<Error>)
    ensures ReportsExactlyFailures(cmds, reg, errors)
  {
    ErrorsAreFailures(cmds, reg, 0);
    ErrorsInListOrder(cmds, reg, 0);
    EveryFailureCollected(cmds, reg, 0);
    CollectErrorsFrom(cmds, reg, 0)
  }

  /** What executing a list of commands produced: all their host actions, their results, the final registry. */
  datatype Batch = Batch(trace: seq<Step>, results: seq<Result>, registry: Registry)

  /** Some command of the list reaches a package handle. */
  ghost predicate AnyUsesPackage(cmds: seq<Command>) {
    exists i :: 0 <= i < |cmds| && UsesPackage(cmds[i])
  }

  /**
   Execute every command in list order. Each command yields one result; the
   name sets are untouched, and the cache is filled exactly when some
   command reaches a package handle.
   */
  function ExecuteAll(cmds: seq<Command>, reg: Registry): (out: Batch)
    ensures |out.results| == |cmds|
    ensures out.registry.install == reg.install && out.registry.remove == reg.remove
    decreases |cmds|
  {
    if |cmds| == 0 then Batch([], [], reg)
    else
      var first := Execute(cmds[0], reg);
      var rest := ExecuteAll(cmds[1..], first.registry);
      Batch(first.trace + rest.trace, [first.result] + rest.results, rest.registry)
  }

  lemma AnyUsesPackageCons(cmds: seq<Command>)
    requires |cmds| > 0
    ensures AnyUsesPackage(cmds) <==> UsesPackage(cmds[0]) || AnyUsesPackage(cmds[1..])
  {
    if AnyUsesPackage(cmds[1..]) {
      var i :| 0 <= i < |cmds[1..]| && UsesPackage(cmds[1..][i]);
      assert cmds[i + 1] == cmds[1..][i];
    }
    if AnyUsesPackage(cmds) && !UsesPackage(cmds[0]) {
      var i :| 0 <= i < |cmds| && UsesPackage(cmds[i]);
      assert cmds[1..][i - 1] == cmds[i];
    }
  }

  /** The cache is filled by a run over a list exactly when some command reaches a package handle. */
  lemma {:induction false} ExecuteAllCache(cmds: seq<Command>, reg: Registry)
    ensures ExecuteAll(cmds, reg).registry.cached ==
      if reg.cached.None? && AnyUsesPackage(cmds) then Some(Ok(false)) else reg.cached
    decreases |cmds|
  {
    if |cmds| > 0 {
      AnyUsesPackageCons(cmds);
      ExecuteAllCache(cmds[1..], Execute(cmds[0], reg).registry);
    }
  }

  /** Executing a list in two parts, the second against the registry the first left, is executing it whole. */
  lemma {:induction false} ExecuteAllAppend(a: seq<Command>, b: seq<Command>, reg: Registry)
    ensures var x := ExecuteAll(a, reg);
      var y := ExecuteAll(b, x.registry);
      ExecuteAll(a + b, reg) == Batch(x.trace + y.trace, x.results + y.results, y.registry)
    decreases |a|
  {
    if |a| == 0 {
      assert a + b == b;
    } else {
      var first := Execute(a[0], reg);
      assert (a + b)[0] == a[0];
      assert (a + b)[1..] == a[1..] + b;
      ExecuteAllAppend(a[1..], b, first.registry);
      var x' := ExecuteAll(a[1..], first.registry);
      BatchRegroup(first, x', ExecuteAll(b, x'.registry));
    }
  }

  /** One command's run, then two batches: grouping the first two or the last two gives the same batch. */
  lemma BatchRegroup(first: Run, x: Batch, y: Batch)
    ensures Batch(first.trace + (x.trace + y.trace), [first.result] + (x.results + y.results), y.registry) ==
      Batch(first.trace + x.trace + y.trace, [first.result] + x.results + y.results, y.registry)
  {
    assert first.trace + (x.trace + y.trace) == first.trace + x.trace + y.trace;
    assert [first.result] + (x.results + y.results) == [first.result] + x.results + y.results;
  }

  /**
   Every command is executed, in list order: the i-th result is what the
   i-th command returns against the registry the earlier ones left.
   */
  lemma EveryCommandExecuted(cmds: seq<Command>, reg: Registry, i: nat)
    requires i < |cmds|
    ensures ExecuteAll(cmds, reg).results[i] ==
      Execute(cmds[i], ExecuteAll(cmds[..i], reg).registry).result
  {
    ExecuteAllAppend(cmds[..i], cmds[i..], reg);
    assert cmds[..i] + cmds[i..] == cmds;
    var x := ExecuteAll(cmds[..i], reg);
    assert cmds[i..][0] == cmds[i];
    assert ExecuteAll(cmds[i..], x.registry).results[0] == Execute(cmds[i], x.registry).result;
  }

  /**
   Every command's host actions are in the trace, in list order: the trace
   up to the i-th command is the trace before it followed by that command's
   own trace against the registry the earlier ones left.
   */
  lemma EveryCommandTraced(cmds: seq<Command>, reg: Registry, i: nat)
    requires i < |cmds|
    ensures ExecuteAll(cmds[..i + 1], reg).trace ==
      ExecuteAll(cmds[..i], reg).trace + Execute(cmds[i], ExecuteAll(cmds[..i], reg).registry).trace
  {
    ExecuteAllAppend(cmds[..i], [cmds[i]], reg);
    assert cmds[..i] + [cmds[i]] == cmds[..i + 1];
  }

  /** Every result of a run over the list is its command's execution after the commands before it. */
  lemma EveryResultExecuted(cmds: seq<Command>, reg: Registry)
    ensures forall i :: 0 <= i < |cmds| ==>
      ExecuteAll(cmds, reg).results[i] == Execute(cmds[i], ExecuteAll(cmds[..i], reg).registry).result
  {
    forall i | 0 <= i < |cmds|
      ensures ExecuteAll(cmds, reg).results[i] == Execute(cmds[i], ExecuteAll(cmds[..i], reg).registry).result
    {
      EveryCommandExecuted(cmds, reg, i);
    }
  }

  /** Over a whole list, the i-th result reports a change exactly when the i-th command is a file. */
  lemma {:induction false} OnlyFilesChangeOverall(cmds: seq<Command>, reg: Registry)
    requires reg.cached.None? || reg.cached == Some(Ok(false))
    ensures forall i :: 0 <= i < |cmds| ==> ExecuteAll(cmds, reg).results[i] == Ok(cmds[i].File?)
    decreases |cmds|
  {
    if |cmds| > 0 {
      var first := Execute(cmds[0], reg);
      var rest := ExecuteAll(cmds[1..], first.registry);
      OnlyFilesChange(cmds[0], reg);
      OnlyFilesChangeOverall(cmds[1..], first.registry);
      forall i | 0 < i < |cmds|
        ensures ExecuteAll(cmds, reg).results[i] == Ok(cmds[i].File?)
      {
        assert cmds[1..][i - 1] == cmds[i];
        assert ExecuteAll(cmds, reg).results[i] == rest.results[i - 1];
      }
    }
  }

  /**
   Over a whole list, the package manager runs at most once: its steps in
   the trace are the batched action for the registry when some command
   reaches a package handle and the cache was empty, and none otherwise.
   */
  lemma {:induction false} PackageActionOnceOverall(cmds: seq<Command>, reg: Registry)
    ensures PacmanSteps(ExecuteAll(cmds, reg).trace) ==
      if reg.cached.None? && AnyUsesPackage(cmds) then PackageSteps(reg.remove, reg.install) else []
    decreases |cmds|
  {
    if |cmds| > 0 {
      var first := Execute(cmds[0], reg);
      var rest := ExecuteAll(cmds[1..], first.registry);
      PackageActionOnce(cmds[0], reg);
      PackageActionOnceOverall(cmds[1..], first.registry);
      PacmanStepsAppend(first.trace, rest.trace);
      AnyUsesPackageCons(cmds);
      AtMostOneOf(PacmanSteps(first.trace), PacmanSteps(rest.trace), PackageSteps(reg.remove, reg.install),
        reg.cached.None? && UsesPackage(cmds[0]), first.registry.cached.None? && AnyUsesPackage(cmds[1..]));
    }
  }

  /** How a run ended: stopped with the validation errors, or every command executed. */
  datatype Outcome =
    | Aborted(errors: seq<Error>)
    | Completed(trace: seq<Step>, results: seq<Result>, registry: Registry)

  /**
   The driver: any validation problem aborts the run before anything is
   executed, with every problem reported; otherwise every command runs.
   */
  function RunAll(cmds: seq<Command>, reg: Registry): (outcome: Outcome)
    ensures outcome.Aborted? <==> exists i :: 0 <= i < |cmds| && Validate(cmds[i], reg).Some?
    ensures outcome.Aborted? ==> ReportsExactlyFailures(cmds, reg, outcome.errors)
    ensures outcome.Completed? ==>
      && |outcome.results| == |cmds|
      && outcome.registry.install == reg.install && outcome.registry.remove == reg.remove
    ensures outcome.Completed? ==>
      outcome.trace == ExecuteAll(cmds, reg).trace && outcome.registry == ExecuteAll(cmds, reg).registry
    ensures outcome.Completed? ==> forall i :: 0 <= i < |cmds| ==>
      outcome.results[i] == Execute(cmds[i], ExecuteAll(cmds[..i], reg).registry).result
    ensures outcome.Completed? ==>
      PacmanSteps(outcome.trace) == if reg.cached.None? && AnyUsesPackage(cmds) then PackageSteps(reg.remove, reg.install) else []
  {
    var errors := CollectErrors(cmds, reg);
    EveryResultExecuted(cmds, reg);
    PackageActionOnceOverall(cmds, reg);
    assert |errors| > 0 ==> Validate(cmds[errors[0].position], reg).Some?;
    if |errors| > 0 then Aborted(errors)
    else
      var batch := ExecuteAll(cmds, reg);
      Completed(batch.trace, batch.results, batch.registry)
  }

  /** test.py's first loop: validate every command in turn, without stopping at the first problem. */
  method ValidateEach(cmds: seq<Command>, reg: Registry) returns (errors: seq<Error>)
    ensures errors == CollectErrors(cmds, reg)
  {
    errors := [];
    var i := 0;
    while i < |cmds|
      invariant 0 <= i <= |cmds|
      invariant errors + CollectErrorsFrom(cmds, reg, i) == CollectErrorsFrom(cmds, reg, 0)
    {
      match Validate(cmds[i], reg) {
        case Some(p) =>
          assert CollectErrorsFrom(cmds, reg, i) == [Error(i, cmds[i], p)] + CollectErrorsFrom(cmds, reg, i + 1);
          errors := errors + [Error(i, cmds[i], p)];
        case None =>
      }
      i := i + 1;
    }
  }

  /** test.py's execution: each command in turn, against the registry the earlier ones left. */
  method ExecuteEach(cmds: seq<Command>, reg: Registry) returns (batch: Batch)
    ensures batch == ExecuteAll(cmds, reg)
  {
    var trace: seq<Step> := [];
    var results: seq<Result> := [];
    var current := reg;
    var i := 0;
    while i < |cmds|
      invariant 0 <= i <= |cmds|
      invariant ExecuteAll(cmds[..i], reg) == Batch(trace, results, current)
    {
      var run := Execute(cmds[i], current);
      ExecuteAllAppend(cmds[..i], [cmds[i]], reg);
      assert cmds[..i] + [cmds[i]] == cmds[..i + 1];
      trace := trace + run.trace;
      results := results + [run.result];
      current := run.registry;
      i := i + 1;
    }
    assert cmds[..i] == cmds;
    batch := Batch(trace, results, current);
  }

  /**
   test.py's driver: validate every command, then either stop with the
   problems or execute the commands one by one.
   */
  method Drive(cmds: seq<Command>, reg: Registry) returns (outcome: Outcome)
    ensures outcome == RunAll(cmds, reg)
  {
    var errors := ValidateEach(cmds, reg);
    if |errors| > 0 {
      return Aborted(errors);
    }
    var batch := ExecuteEach(cmds, reg);
    return Completed(batch.trace, batch.results, batch.registry);
  }

  /* ---------------------------------------------------------------- as written */

  /**
   How the validation loop ends: having collected its errors, or with an
   exception escaping it, raised at a position, possibly while another was
   being handled.
   */
  datatype PassEnd =
    | Finished(errors: seq<Error>)
    | Escaped(position: nat, raised: Raised, during: Option<Raised>)

  /**
   The validation loop of test.py from position `start` on, given what
   `command.validate()` does (the exception it raises, or None when it
   returns) and whether the name `ValidationError` is bound. Evaluating the
   `except` clause with the name unbound raises NameError while the first
   exception is being handled; a bound `ValidationError` catches exactly the
   validation failures, appends them, and lets anything else escape.
   */
  function ValidationLoop(cmds: seq<Command>, validate: Command -> Option<Raised>, handlerBound: bool, start: nat): PassEnd
    requires start <= |cmds|
    decreases |cmds| - start
  {
    if start == |cmds| then Finished([])
    else
      match validate(cmds[start])
      case None => ValidationLoop(cmds, validate, handlerBound, start + 1)
      case Some(e) =>
        if !handlerBound then Escaped(start, NameError("ValidationError"), Some(e))
        else if !e.Failed? then Escaped(start, e, None)
        else
          match ValidationLoop(cmds, validate, handlerBound, start + 1)
          case Finished(rest) => Finished([Error(start, cmds[start], e.problem)] + rest)
          case escaped => escaped
  }

  /** The validation loop as written: every `validate()` raises and `ValidationError` is not bound. */
  function ValidationPassAsWritten(cmds: seq<Command>): PassEnd {
    ValidationLoop(cmds, ValidateAsWritten, false, 0)
  }

  /** `validate()` as intended: a command's problem, if any, raised as a validation failure. */
  function ValidateRaising(reg: Registry, cmd: Command): Option<Raised> {
    match Validate(cmd, reg)
    case None => None
    case Some(p) => Some(Failed(p))
  }

  /**
   With `validate()` as intended and `ValidationError` bound, the loop never
   lets an exception escape and collects exactly the errors of the
   validation pass.
   */
  lemma {:induction false} IntendedLoopCollects(cmds: seq<Command>, reg: Registry, start: nat)
    requires start <= |cmds|
    ensures ValidationLoop(cmds, c => ValidateRaising(reg, c), true, start) == Finished(CollectErrorsFrom(cmds, reg, start))
    decreases |cmds| - start
  {
    if start < |cmds| {
      IntendedLoopCollects(cmds, reg, start + 1);
    }
  }

  /**
   As written, any non-empty list stops the program at its first command,
   before anything is executed and whether or not a package conflict
   exists; the intended pass reports exactly the conflicts and, when there
   are none, runs every command.
   */
  lemma ValidationPassEscapesAsWritten(cmds: seq<Command>, reg: Registry)
    requires |cmds| > 0
    ensures ValidationPassAsWritten(cmds).Escaped?
    ensures ValidationPassAsWritten(cmds).position == 0
    ensures ValidationPassAsWritten(cmds).raised == NameError("ValidationError")
    ensures ValidationPassAsWritten(cmds).during ==
      Some(if cmds[0].Package? then NameError("packages") else AttributeError("validate"))
    ensures ValidationLoop(cmds, c => ValidateRaising(reg, c), true, 0) == Finished(CollectErrors(cmds, reg))
    ensures (forall i :: 0 <= i < |cmds| ==> Validate(cmds[i], reg).None?) ==> RunAll(cmds, reg).Completed?
  {
    IntendedLoopCollects(cmds, reg, 0);
  }
}
