/*
 * Launching a process: how the helper fills in the start parameters of a process object,
 * writes the extra environment variables into its own (inherited) environment, starts the
 * process, adjusts its priority and decides whether to watch for its exit.
 *
 * The operating system's answer to the start request is a parameter. The log handler and
 * the exit callback are reduced to whether they are present.
 */
module Launch {
  import opened Wrappers

  /** Process priority classes. */
  datatype Priority = Idle | BelowNormal | Normal | AboveNormal | High | RealTime

  /** The values of the start parameters the helper touches. */
  datatype StartParams = StartParams(fileName: string, arguments: string, workingDirectory: string,
                                     createNoWindow: bool, useShellExecute: bool,
                                     redirectStandardInput: bool, redirectStandardOutput: bool, redirectStandardError: bool)

  /**
   * The parameters for a direct start: an absent executable, argument string or working
   * directory keeps the current one; no new window and no shell; standard input redirected as
   * asked; standard output and error redirected exactly when their contents are forwarded to a
   * log handler.
   */
  function Configured(p: StartParams, executable: Option<string>, arguments: Option<string>, workingDirectory: Option<string>,
                      redirectStdin: bool, hasLogHandler: bool): (r: StartParams)
    ensures executable.None? ==> r.fileName == p.fileName
    ensures executable.Some? ==> r.fileName == executable.value
    ensures arguments.None? ==> r.arguments == p.arguments
    ensures arguments.Some? ==> r.arguments == arguments.value
    ensures workingDirectory.None? ==> r.workingDirectory == p.workingDirectory
    ensures workingDirectory.Some? ==> r.workingDirectory == workingDirectory.value
    ensures !r.createNoWindow && !r.useShellExecute
    ensures r.redirectStandardInput == redirectStdin
    ensures r.redirectStandardOutput == r.redirectStandardError == hasLogHandler
  {
    StartParams(if executable.Some? then executable.value else p.fileName,
                if arguments.Some? then arguments.value else p.arguments,
                if workingDirectory.Some? then workingDirectory.value else p.workingDirectory,
                false, false, redirectStdin, hasLogHandler, hasLogHandler)
  }

  /** The start parameters of a process, changed in place by the helper. */
  class StartInfo {
    var fileName: string
    var arguments: string
    var workingDirectory: string
    var createNoWindow: bool
    var useShellExecute: bool
    var redirectStandardInput: bool
    var redirectStandardOutput: bool
    var redirectStandardError: bool

    /** Fresh start parameters for `fileName`, with the platform defaults. */
    constructor (fileName: string)
      ensures this.fileName == fileName && arguments == "" && workingDirectory == ""
      ensures !createNoWindow && useShellExecute
      ensures !redirectStandardInput && !redirectStandardOutput && !redirectStandardError
    {
      this.fileName := fileName;
      arguments := "";
      workingDirectory := "";
      createNoWindow := false;
      useShellExecute := true;
      redirectStandardInput := false;
      redirectStandardOutput := false;
      redirectStandardError := false;
    }

    /** The current values of the parameters. */
    ghost function Params(): StartParams
      reads this
    {
      StartParams(fileName, arguments, workingDirectory, createNoWindow, useShellExecute,
                  redirectStandardInput, redirectStandardOutput, redirectStandardError)
    }

    /** Fills in the parameters for a direct start, as `Configured` describes. */
    method Configure(executable: Option<string>, arguments: Option<string>, workingDirectory: Option<string>,
                     redirectStdin: bool, hasLogHandler: bool)
      modifies this
      ensures Params() == Configured(old(Params()), executable, arguments, workingDirectory, redirectStdin, hasLogHandler)
    {
      if executable.Some? {
        fileName := executable.value;
      }
      if arguments.Some? {
        this.arguments := arguments.value;
      }
      if workingDirectory.Some? {
        this.workingDirectory := workingDirectory.value;
      }
      createNoWindow := false;
      useShellExecute := false;
      redirectStandardInput := redirectStdin;
      redirectStandardOutput := hasLogHandler;
      redirectStandardError := hasLogHandler;
    }
  }

  /** A process object: its start parameters, whether it was started, and its priority class. */
  class Process {
    const startInfo: StartInfo
    var started: bool
    var priorityClass: Priority

    constructor (fileName: string)
      ensures fresh(startInfo) && startInfo.fileName == fileName
      ensures !started && priorityClass == Normal
    {
      startInfo := new StartInfo(fileName);
      started := false;
      priorityClass := Normal;
    }
  }

  /** Names and values must be shorter than this many characters. */
  const MaxVariableLength := 32767

  /** A value that deletes the variable instead of setting it: the empty string, or one that starts with NUL. */
  predicate Deletes(value: string)
    ensures value == "" ==> Deletes(value)
  {
    value == "" || value[0] == '\0'
  }

  /**
   * Whether the runtime accepts the write: the name is not empty, does not start with NUL,
   * holds no '=' and is shorter than the limit, and a value that sets the variable is shorter
   * than the limit. The runtime raises on any other write.
   */
  predicate Accepted(key: string, value: string)
    ensures Accepted(key, value) ==> key != "" && '=' !in key && |key| < MaxVariableLength
    ensures key != "" && key[0] != '\0' && |key| < MaxVariableLength && '=' !in key && Deletes(value) ==> Accepted(key, value)
  {
    && key != "" && key[0] != '\0' && |key| < MaxVariableLength && '=' !in key
    && (Deletes(value) || |value| < MaxVariableLength)
  }

  /**
   * Setting one environment variable: a rejected write fails and changes nothing; otherwise a
   * deleting value removes the variable, any other value sets it, and every other variable is
   * left as it was.
   */
  function SetVariable(env: map<string, string>, key: string, value: string): (r: Option<map<string, string>>)
    ensures r.Some? <==> Accepted(key, value)
    ensures r.Some? && Deletes(value) ==> key !in r.value
    ensures r.Some? && !Deletes(value) ==> key in r.value && r.value[key] == value
    ensures r.Some? ==> forall k :: k != key ==> (k in r.value <==> k in env) && (k in r.value ==> r.value[k] == env[k])
  {
    if !Accepted(key, value) then None
    else if Deletes(value) then Some(env - {key})
    else Some(env[key := value])
  }

  /** Accepted writes to different variables do not interfere, so the order of the writes does not matter. */
  lemma SetVariableCommutes(env: map<string, string>, a: string, x: string, b: string, y: string)
    requires a != b
    ensures Accepted(a, x) && Accepted(b, y) ==>
      SetVariable(SetVariable(env, a, x).value, b, y) == SetVariable(SetVariable(env, b, y).value, a, x)
  {
    if Accepted(a, x) && Accepted(b, y) {
      var l := SetVariable(SetVariable(env, a, x).value, b, y).value;
      var r := SetVariable(SetVariable(env, b, y).value, a, x).value;
      assert forall k :: k in l <==> k in r;
      assert forall k :: k in l ==> l[k] == r[k];
      assert l == r;
    }
  }

  /** Every override is a write the runtime accepts. */
  predicate AllAccepted(vars: map<string, string>)
    ensures vars == map[] ==> AllAccepted(vars)
  {
    forall k :: k in vars ==> Accepted(k, vars[k])
  }

  /** No overrides, or overrides that are all accepted. */
  predicate EnvAccepted(envVars: Option<map<string, string>>)
    ensures envVars.None? ==> EnvAccepted(envVars)
  {
    envVars.None? || AllAccepted(envVars.value)
  }

  /**
   * The environment once the overrides for the keys in `done` have been written: those keys
   * hold their override (or are gone when the override deletes), all other keys are as in `env`.
   */
  function Overlay(env: map<string, string>, vars: map<string, string>, done: set<string>): (r: map<string, string>)
    requires done <= vars.Keys
    ensures forall k :: k in r ==> k in env || k in done
  {
    map k | k in (env.Keys - done) + (set d | d in done && !Deletes(vars[d])) :: if k in done then vars[k] else env[k]
  }

  /** Key by key, what `Overlay` holds. */
  lemma OverlayMeaning(env: map<string, string>, vars: map<string, string>, done: set<string>)
    requires done <= vars.Keys
    ensures var r := Overlay(env, vars, done);
      && (forall k :: k in done ==> (k in r <==> !Deletes(vars[k])) && (k in r ==> r[k] == vars[k]))
      && (forall k :: k !in done ==> (k in r <==> k in env) && (k in r ==> r[k] == env[k]))
  {
  }

  /** The environment after writing all the overrides, if there are any. */
  function Overridden(env: map<string, string>, envVars: Option<map<string, string>>): (r: map<string, string>)
    ensures envVars.None? ==> r == env
    ensures envVars.Some? ==> forall k :: k in envVars.value ==>
      (k in r <==> !Deletes(envVars.value[k])) && (k in r ==> r[k] == envVars.value[k])
    ensures envVars.Some? ==> forall k :: k !in envVars.value ==> (k in r <==> k in env) && (k in r ==> r[k] == env[k])
  {
    if envVars.Some? then
      OverlayMeaning(env, envVars.value, envVars.value.Keys);
      Overlay(env, envVars.value, envVars.value.Keys)
    else env
  }

  /** The overrides of `done` were all accepted and written on top of `env0`, giving `env`. */
  ghost predicate WrittenUpTo(env0: map<string, string>, vars: map<string, string>, done: set<string>, env: map<string, string>) {
    done <= vars.Keys && (forall k :: k in done ==> Accepted(k, vars[k])) && env == Overlay(env0, vars, done)
  }

  /** Writing one more override extends the overlay by that key. */
  lemma OverlayStep(env: map<string, string>, vars: map<string, string>, done: set<string>, key: string)
    requires done <= vars.Keys && key in vars && key !in done
    requires Accepted(key, vars[key])
    ensures Overlay(env, vars, done + {key}) == SetVariable(Overlay(env, vars, done), key, vars[key]).value
  {
    var l := Overlay(env, vars, done + {key});
    var r := SetVariable(Overlay(env, vars, done), key, vars[key]).value;
    OverlayMeaning(env, vars, done + {key});
    OverlayMeaning(env, vars, done);
    assert forall k :: k in l <==> k in r;
    assert forall k :: k in l ==> l[k] == r[k];
  }

  /** Writing no override leaves the environment as it was. */
  lemma OverlayNone(env: map<string, string>, vars: map<string, string>)
    ensures Overlay(env, vars, {}) == env
  {
    var r := Overlay(env, vars, {});
    OverlayMeaning(env, vars, {});
    assert forall k :: k in r <==> k in env;
  }

  /** The helper's own environment, inherited by the processes it starts, and the exit watchers it has started. */
  class Host {
    var environment: map<string, string>
    var watchers: seq<Process>

    constructor (environment: map<string, string>)
      ensures this.environment == environment && watchers == []
    {
      this.environment := environment;
      watchers := [];
    }

    /** Sets (or, with a deleting value, deletes) one variable of the environment; a rejected write fails and changes nothing. */
    method SetEnvironmentVariable(key: string, value: string) returns (ok: bool)
      modifies this
      ensures ok == Accepted(key, value)
      ensures ok ==> environment == SetVariable(old(environment), key, value).value
      ensures !ok ==> environment == old(environment)
      ensures watchers == old(watchers)
    {
      var r := SetVariable(environment, key, value);
      ok := r.Some?;
      if ok {
        environment := r.value;
      }
    }

    /**
     * Writes the overrides of `vars` into the environment, one variable at a time, in no
     * particular order, and stops at the first write the runtime rejects: then the overrides
     * written before it stay, and the rest are not written.
     */
    method SetEnvironmentVariables(vars: map<string, string>) returns (ok: bool)
      modifies this
      ensures ok == AllAccepted(vars)
      ensures ok ==> environment == Overlay(old(environment), vars, vars.Keys)
      ensures !ok ==> exists done :: done < vars.Keys && WrittenUpTo(old(environment), vars, done, environment)
      ensures watchers == old(watchers)
    {
      var keys := vars.Keys;
      ghost var done: set<string> := {};
      OverlayNone(environment, vars);
      while keys != {}
        invariant done + keys == vars.Keys && done !! keys
        invariant WrittenUpTo(old(environment), vars, done, environment)
        invariant watchers == old(watchers)
        decreases keys
      {
        var key :| key in keys;
        ok := SetEnvironmentVariable(key, vars[key]);
        if !ok {
          assert done < vars.Keys;
          return;
        }
        OverlayStep(old(environment), vars, done, key);
        keys := keys - {key};
        done := done + {key};
      }
      ok := true;
    }
  }

  /**
   * Fills in the start parameters (an absent executable, argument string or working directory
   * keeps the current one; no new window, no shell; standard input redirected as asked;
   * standard output and error redirected exactly when a log handler is given), writes the
   * environment overrides into the helper's environment, and starts the process. A rejected
   * variable write escapes as an error before the start, leaving the writes made before it; a
   * start the system refuses escapes as an error after the parameters and the environment
   * were changed. After a successful start the priority is set when one other than Normal is
   * given, and an exit watcher is started when a callback is given.
   */
  method StartProcessAndCallbackForExit(host: Host, processToStart: Process,
                                        executable: Option<string>, arguments: Option<string>,
                                        envVars: Option<map<string, string>>, workingDirectory: Option<string>,
                                        priority: Option<Priority>, hasCallback: bool, redirectStdin: bool,
                                        hasLogHandler: bool, startAccepted: bool)
    returns (started: bool)
    modifies host, processToStart, processToStart.startInfo
    ensures started == (EnvAccepted(envVars) && startAccepted)
    ensures processToStart.startInfo.Params() ==
      Configured(old(processToStart.startInfo.Params()), executable, arguments, workingDirectory, redirectStdin, hasLogHandler)
    ensures EnvAccepted(envVars) ==> host.environment == Overridden(old(host.environment), envVars)
    ensures !EnvAccepted(envVars) ==>
      exists done :: done < envVars.value.Keys && WrittenUpTo(old(host.environment), envVars.value, done, host.environment)
    ensures processToStart.started == (old(processToStart.started) || started)
    ensures processToStart.priorityClass ==
      if started && priority.Some? && priority.value != Normal then priority.value else old(processToStart.priorityClass)
    ensures host.watchers == if started && hasCallback then old(host.watchers) + [processToStart] else old(host.watchers)
  {
    processToStart.startInfo.Configure(executable, arguments, workingDirectory, redirectStdin, hasLogHandler);

    var written := true;
    if envVars.Some? {
      written := host.SetEnvironmentVariables(envVars.value);
    }
    assert written == EnvAccepted(envVars);
    assert written ==> host.environment == Overridden(old(host.environment), envVars);
    assert processToStart.startInfo.Params() ==
      Configured(old(processToStart.startInfo.Params()), executable, arguments, workingDirectory, redirectStdin, hasLogHandler);

    // A rejected write has thrown before the start; a refused start throws at the start.
    started := written && startAccepted;
    if started {
      processToStart.started := true;
      if priority.Some? && priority.value != Normal {
        processToStart.priorityClass := priority.value;
      }
      if hasCallback {
        host.watchers := host.watchers + [processToStart];
      }
    }
  }
}
