/**
 * `CommandExecutor.execute` (utils/executor.py): choosing the working directory, the
 * project-root guard, assembling the child's environment, and turning what happened to the
 * child process into the result record. The process itself — the shell, the clock, the
 * operating system — is an oracle `run` passed in by the caller.
 */
module Executor {
  import opened Wrappers
  import Paths
  import Text

  /** What happened to the child: a normal exit, the timeout firing, or an exception raised
      while starting or waiting for it (its `str`). */
  datatype ProcessOutcome =
    | Exited(returnCode: int, stdout: string, stderr: string)
    | TimedOut
    | Raised(message: string)

  /** The oracle's answer: the outcome and the wall-clock time it took, already rounded to
      hundredths of a second. */
  datatype Observation = Observation(outcome: ProcessOutcome, centiseconds: nat)

  /** The record `execute` returns; `duration` is in hundredths of a second. */
  datatype CommandResult = CommandResult(success: bool, exitCode: int, stdout: string, stderr: string,
                                         duration: nat)

  /** What is handed to the process layer: the command, the working directory as given, the
      child's environment and the timeout. */
  datatype SpawnRequest = SpawnRequest(command: string, cwd: string, env: map<string, string>, timeout: int)

  const CwdOutsideRoot: string := "Error: cwd must be within project root"

  /** The result of a refused working directory: nothing was run and no time passed. */
  const Refused: CommandResult := CommandResult(false, -1, "", CwdOutsideRoot, 0)

  /** The message of the timeout branch, with the timeout written as a decimal integer. */
  function TimeoutMessage(timeout: int): string {
    "Command timed out after " + Text.IntToDecimal(timeout) + "s"
  }

  /** The three `return` statements after the spawn: a normal exit passes its code and output
      through; a timeout or an exception gives exit code -1 and no output. In every branch the
      call succeeded exactly when the exit code is 0. */
  function FromOutcome(o: Observation, timeout: int): (r: CommandResult)
    ensures r.success <==> r.exitCode == 0
    ensures r.duration == o.centiseconds
    ensures o.outcome.Exited? ==>
      r.exitCode == o.outcome.returnCode && r.stdout == o.outcome.stdout && r.stderr == o.outcome.stderr
    ensures !o.outcome.Exited? ==> r.exitCode == -1 && r.stdout == ""
    ensures o.outcome.TimedOut? ==> r.stderr == TimeoutMessage(timeout)
    ensures o.outcome.Raised? ==> r.stderr == o.outcome.message
  {
    match o.outcome
    case Exited(code, out, err) => CommandResult(code == 0, code, out, err, o.centiseconds)
    case TimedOut => CommandResult(false, -1, "", TimeoutMessage(timeout), o.centiseconds)
    case Raised(msg) => CommandResult(false, -1, "", msg, o.centiseconds)
  }

  /** `os.environ.copy()` followed, when `env` is a non-empty dictionary, by `update(env)`. */
  function Overlay(environ: map<string, string>, overrides: Option<map<string, string>>): map<string, string> {
    if overrides.Some? && |overrides.value| > 0 then environ + overrides.value else environ
  }

  /** The overridden keys of the child's environment: none when `env` is absent. */
  function OverrideKeys(overrides: Option<map<string, string>>): set<string> {
    if overrides.Some? then overrides.value.Keys else {}
  }

  /** The child's environment has the inherited keys and the override keys; an override wins,
      and every key that is not overridden keeps its inherited value. */
  lemma OverlayLaws(environ: map<string, string>, overrides: Option<map<string, string>>)
    ensures Overlay(environ, overrides).Keys == environ.Keys + OverrideKeys(overrides)
    ensures forall k :: k in OverrideKeys(overrides) ==> Overlay(environ, overrides)[k] == overrides.value[k]
    ensures forall k :: k in environ && k !in OverrideKeys(overrides) ==>
      Overlay(environ, overrides)[k] == environ[k]
  {
    if overrides.Some? && |overrides.value| == 0 {
      assert overrides.value.Keys == {};
    }
  }

  /** The entries of `m` whose keys are in `keys`. */
  function Restrict(m: map<string, string>, keys: set<string>): map<string, string> {
    map k | k in m && k in keys :: m[k]
  }

  /** Writing one more override over a partially overlaid environment. */
  lemma OverlayStep(environ: map<string, string>, ov: map<string, string>, done: set<string>, k: string)
    requires k in ov
    ensures (environ + Restrict(ov, done))[k := ov[k]] == environ + Restrict(ov, done + {k})
  {
    var a, b := (environ + Restrict(ov, done))[k := ov[k]], environ + Restrict(ov, done + {k});
    assert a.Keys == b.Keys;
    forall j | j in a ensures a[j] == b[j] {
    }
  }

  /** Building the child's environment: a copy of the inherited one, then each override
      written over it, key by key, as `dict.update` does. */
  method ChildEnvironment(environ: map<string, string>, overrides: Option<map<string, string>>)
    returns (env: map<string, string>)
    ensures env == Overlay(environ, overrides)
  {
    env := environ;
    if overrides.Some? && |overrides.value| > 0 {
      var ov := overrides.value;
      var pending := ov.Keys;
      assert Restrict(ov, {}) == map[];
      assert env == environ + Restrict(ov, ov.Keys - pending);
      while pending != {}
        invariant pending <= ov.Keys
        invariant env == environ + Restrict(ov, ov.Keys - pending)
        decreases pending
      {
        var k :| k in pending;
        OverlayStep(environ, ov, ov.Keys - pending, k);
        env := env[k := ov[k]];
        assert ov.Keys - pending + {k} == ov.Keys - (pending - {k});
        pending := pending - {k};
      }
      assert Restrict(ov, ov.Keys) == ov;
    }
  }

  /** The command executor of one project. */
  class CommandExecutor {
    const projectRoot: string
    /** The server process's working directory, against which relative paths resolve. */
    const processCwd: Paths.AbsolutePath

    constructor (projectRoot: string, processCwd: Paths.AbsolutePath)
      ensures this.projectRoot == projectRoot && this.processCwd == processCwd
    {
      this.projectRoot := projectRoot;
      this.processCwd := processCwd;
    }

    /** `execute(command, cwd, timeout, env)`, with `os.environ` passed as `environ` and the
        process layer as `run`. Besides the result it returns the request handed to `run`, or
        `None` when nothing was spawned. A missing `cwd` becomes the project root, which
        always passes the guard; a `cwd` failing the guard is refused without spawning; any
        other call spawns once, in the directory as given and with the overlaid environment,
        and reports what the process layer observed. */
    method Execute(command: string, cwd: Option<string>, timeout: int, env: Option<map<string, string>>,
                   environ: map<string, string>, run: SpawnRequest -> Observation)
      returns (result: CommandResult, spawned: Option<SpawnRequest>)
      ensures var dir := cwd.GetOr(projectRoot);
        spawned.None? <==> !Paths.WithinRoot(processCwd, projectRoot, dir)
      ensures cwd.None? ==> spawned.Some?
      ensures spawned.None? ==> result == Refused
      ensures spawned.Some? ==>
        && spawned.value == SpawnRequest(command, cwd.GetOr(projectRoot), Overlay(environ, env), timeout)
        && result == FromOutcome(run(spawned.value), timeout)
      ensures result.success <==> result.exitCode == 0
    {
      var dir := if cwd.None? then projectRoot else cwd.value;
      Paths.RootAdmitted(processCwd, projectRoot);
      if !Paths.StartsWith(Paths.Abs(processCwd, dir), Paths.Abs(processCwd, projectRoot)) {
        return Refused, None;
      }
      var childEnv := ChildEnvironment(environ, env);
      var request := SpawnRequest(command, dir, childEnv, timeout);
      result := FromOutcome(run(request), timeout);
      spawned := Some(request);
    }
  }

  /** A timeout message names the timeout: reading the number back between the fixed prefix
      and suffix gives the timeout again. */
  lemma TimeoutMessageNamesTimeout(timeout: int)
    ensures var m := TimeoutMessage(timeout);
      && |m| > |"Command timed out after "| + |"s"|
      && m[..|"Command timed out after "|] == "Command timed out after "
      && m[|m| - 1] == 's'
      && Text.ParseInt(m[|"Command timed out after "|..|m| - 1]) == timeout
  {
    var digits := Text.IntToDecimal(timeout);
    var m := TimeoutMessage(timeout);
    Text.IntToDecimalRoundTrip(timeout);
    assert |digits| > 0 by {
      if timeout < 0 {
        assert digits == "-" + Text.NatToDecimal(-timeout);
      } else {
        Text.NatToDecimalRoundTrip(timeout);
      }
    }
    assert m[|"Command timed out after "|..|m| - 1] == digits;
  }

  /** With the default timeout of 300 (the `timeout: int = 300` parameter of `execute`), the
      timeout branch's message reads "Command timed out after 300s". */
  lemma DefaultTimeoutMessage()
    ensures TimeoutMessage(300) == "Command timed out after 300s"
  {
    assert Text.NatToDecimal(300) == "300" by {
      assert Text.NatToDecimal(3) == "3";
      assert Text.NatToDecimal(30) == "30";
    }
  }

  /** A process exiting with code 7 is reported as a failure carrying code 7 and its output. */
  lemma NonZeroExitExample(out: string, err: string, centiseconds: nat)
    ensures FromOutcome(Observation(Exited(7, out, err), centiseconds), 300)
      == CommandResult(false, 7, out, err, centiseconds)
  {
  }
}
