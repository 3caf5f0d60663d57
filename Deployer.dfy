/** `Capsize::Deployer`: validating a deployment at construction, running it
    (`execute!`), reducing the run to a boolean and recording that outcome
    on the deployment exactly once (`invoke_task!`), and the message logged
    for an error (`handle_error`). Capistrano, the file system and the
    process set-up are foreign: what they do in one run is given as an
    `Environment`. */
module Deployer {
  import opened Wrappers
  import opened RubyString
  import opened ScriptWriter

  datatype Status = Pending | Succeeded | Failed

  /** `Net::SSH::AuthenticationFailed` or any other exception class. */
  datatype ErrorKind = AuthenticationFailed | OtherError

  /** An exception as `handle_error` sees it. */
  datatype Error = Error(kind: ErrorKind, message: string, backtrace: seq<string>)

  /** How the two Capistrano invocations inside `catch` end: normally, by
      `throw :abort_called_by_capistrano, :capistrano_abort`, or by raising. */
  datatype RunnerOutcome = Completed | AbortThrown | Raised(error: Error)

  /** What the foreign steps of one run do: creating the project directory,
      loading the requirements and `capsize_setup`, and Capistrano itself. */
  datatype Environment = Environment(directoryError: Option<Error>, setupError: Option<Error>, runner: RunnerOutcome)

  const NoRolesMessage: string := "The given deployment has no roles and thus can not be deployed!"

  /** The `NoMethodError` raised by `find_by_name('user').value` on nil. */
  const MissingUserError: Error := Error(OtherError, "undefined method `value' for nil:NilClass", [])

  const AuthenticationPrefix: string := "authentication failed for `"

  /** `handle_error(error)`: the message logged at the important level. */
  function HandleError(e: Error): string {
    match e.kind
    case AuthenticationFailed => AuthenticationPrefix + e.message + "'"
    case OtherError => e.message + "\n" + Join(e.backtrace, "\n")
  }

  /** An authentication failure is logged as its message, quoted, after a
      fixed prefix: the message can be read back out of the log line. */
  lemma AuthenticationMessage(e: Error)
    requires e.kind == AuthenticationFailed
    ensures var line := HandleError(e);
      && |line| == |AuthenticationPrefix| + |e.message| + 1
      && line[..|AuthenticationPrefix|] == AuthenticationPrefix
      && line[|AuthenticationPrefix|..|line| - 1] == e.message
      && line[|line| - 1] == '\''
  {
    var line := HandleError(e);
    assert line == AuthenticationPrefix + e.message + "'";
  }

  /** Any other error is logged as its message on the first line and one
      backtrace entry per following line (an empty last line when there is
      no backtrace), so the log splits back into exactly those parts. */
  lemma OtherErrorLines(e: Error)
    requires e.kind == OtherError
    requires '\n' !in e.message && forall k :: 0 <= k < |e.backtrace| ==> '\n' !in e.backtrace[k]
    ensures Fields(HandleError(e), "\n") == [e.message] + (if e.backtrace == [] then [""] else e.backtrace)
  {
    var parts := [e.message] + (if e.backtrace == [] then [""] else e.backtrace);
    assert parts[1..] == (if e.backtrace == [] then [""] else e.backtrace);
    assert Join(parts, "\n") == HandleError(e);
    FieldsJoin(parts, '\n');
  }

  /** The deployment record a deployer runs (an ActiveRecord model): its
      requested task, its own roles, its stage (and through it the project),
      the host ids it excludes and its prompt answers. Only `status` and the
      count of completion calls change. */
  class Deployment {
    const task: string
    const roles: seq<Role>
    const stage: Stage
    const excludedHostIds: seq<string>
    const promptConfig: map<string, string>
    const isNewRecord: bool
    var status: Status
    ghost var completions: nat

    constructor (task: string, roles: seq<Role>, stage: Stage, excludedHostIds: seq<string>,
                 promptConfig: map<string, string>, isNewRecord: bool)
      ensures this.task == task && this.roles == roles && this.stage == stage
      ensures this.excludedHostIds == excludedHostIds && this.promptConfig == promptConfig
      ensures this.isNewRecord == isNewRecord
      ensures status == Pending && completions == 0
    {
      this.task := task;
      this.roles := roles;
      this.stage := stage;
      this.excludedHostIds := excludedHostIds;
      this.promptConfig := promptConfig;
      this.isNewRecord := isNewRecord;
      status := Pending;
      completions := 0;
    }

    /** `complete_with_error!` */
    method CompleteWithError()
      modifies this
      ensures status == Failed && completions == old(completions) + 1
    {
      status := Failed;
      completions := completions + 1;
    }

    /** `complete_successfully!` */
    method CompleteSuccessfully()
      modifies this
      ensures status == Succeeded && completions == old(completions) + 1
    {
      status := Succeeded;
      completions := completions + 1;
    }
  }

  /** Writing the stage file raises: some role is written and the project
      has no `user` parameter. */
  predicate StageWriteFails(d: Deployment) {
    IncludedRoles(d.stage.roles, d.excludedHostIds) != [] && FindHostUser(d.stage.project).Failure?
  }

  /** The run gets as far as invoking Capistrano. */
  predicate ReachesRunner(d: Deployment, env: Environment) {
    env.directoryError.None? && !StageWriteFails(d) && env.setupError.None?
  }

  /** The exception that ends a run in the `rescue` of `execute!`, if any:
      the first step to raise, in the order the steps run. */
  function RunError(d: Deployment, env: Environment): (r: Option<Error>)
    ensures r.None? <==> ReachesRunner(d, env) && !env.runner.Raised?
  {
    if env.directoryError.Some? then env.directoryError
    else if StageWriteFails(d) then Some(MissingUserError)
    else if env.setupError.Some? then env.setupError
    else if env.runner.Raised? then Some(env.runner.error)
    else None
  }

  /** What `handle_error` adds to the log for a run. */
  function ErrorLog(err: Option<Error>): seq<string> {
    match err
    case None => []
    case Some(e) => [HandleError(e)]
  }

  class Deployer {
    const deployment: Deployment
    /** `options[:actions]`: nothing until a task is invoked. */
    var actions: Option<string>
    /** The lines of `deploy.rb` and of `<stage>.rb`, once written. */
    var deployScript: Option<seq<string>>
    var stageScript: Option<seq<string>>
    /** Whether `$stdout` points at this run's browser log. */
    var outputRedirected: bool
    /** The messages logged at the important level. */
    var importantLog: seq<string>

    constructor Init(deployment: Deployment)
      requires deployment.isNewRecord ==> deployment.roles != []
      ensures this.deployment == deployment
      ensures actions == None && deployScript == None && stageScript == None
      ensures !outputRedirected && importantLog == []
    {
      this.deployment := deployment;
      actions := None;
      deployScript := None;
      stageScript := None;
      outputRedirected := false;
      importantLog := [];
    }

    /** `Deployer.new(deployment)`: a new deployment without roles is
      rejected by `validate` with its `ArgumentError`. */
    static method New(deployment: Deployment) returns (r: Result<Deployer, string>)
      ensures r.Failure? <==> deployment.isNewRecord && deployment.roles == []
      ensures r.Failure? ==> r.error == NoRolesMessage
      ensures r.Success? ==>
        && fresh(r.value) && r.value.deployment == deployment
        && (deployment.isNewRecord ==> deployment.roles != [])
        && r.value.actions == None && !r.value.outputRedirected && r.value.importantLog == []
        && r.value.deployScript == None && r.value.stageScript == None
    {
      if deployment.isNewRecord && deployment.roles == [] {
        return Failure(NoRolesMessage);
      }
      var deployer := new Deployer.Init(deployment);
      return Success(deployer);
    }

    /** `execute!`: the steps in order; the first to raise is logged by
      `handle_error` and gives false, an abort gives false, and only a
      completed run gives true. The output is put back by `close_output`
      after the runner returns or aborts, but not when it raises. The stage
      file has been truncated when writing it raises. */
    method Execute(env: Environment) returns (ok: bool)
      modifies this
      ensures ok <==> RunError(deployment, env).None? && env.runner.Completed?
      ensures importantLog == old(importantLog) + ErrorLog(RunError(deployment, env))
      ensures outputRedirected == if ReachesRunner(deployment, env) then env.runner.Raised? else old(outputRedirected)
      ensures actions == old(actions)
      ensures env.directoryError.Some? ==> deployScript == old(deployScript) && stageScript == old(stageScript)
      ensures env.directoryError.None? ==>
        && deployScript.Some?
        && |deployScript.value| == |deployment.stage.project.parameters| + 1 + |DeployHooks|
      ensures env.directoryError.None? && StageWriteFails(deployment) ==> stageScript == Some([])
      ensures env.directoryError.None? && !StageWriteFails(deployment) ==>
        && stageScript.Some?
        && |stageScript.value| == |IncludedRoles(deployment.stage.roles, deployment.excludedHostIds)|
                                  + |deployment.stage.parameters| + |deployment.stage.recipes|
    {
      if env.directoryError.Some? {
        importantLog := importantLog + [HandleError(env.directoryError.value)];
        return false;
      }
      var stage := deployment.stage;
      var deployLines := WriteDeploy(stage.project, stage.name, deployment.promptConfig);
      deployScript := Some(deployLines);
      var stageLines := WriteStage(stage, deployment.excludedHostIds, deployment.promptConfig);
      if stageLines.Failure? {
        stageScript := Some([]);
        importantLog := importantLog + [HandleError(MissingUserError)];
        return false;
      }
      stageScript := Some(stageLines.value);
      if env.setupError.Some? {
        importantLog := importantLog + [HandleError(env.setupError.value)];
        return false;
      }
      outputRedirected := true;
      match env.runner
      case Raised(e) =>
        importantLog := importantLog + [HandleError(e)];
        return false;
      case AbortThrown =>
        outputRedirected := false;
        return false;
      case Completed =>
        outputRedirected := false;
        return true;
    }

    /** `invoke_task!`: sets the actions to the deployment's task, runs it,
      and completes the deployment exactly once, as failed when the run
      gives false and as successful otherwise. */
    method InvokeTask(env: Environment) returns (ok: bool)
      modifies this, deployment
      ensures actions == Some(deployment.task)
      ensures ok <==> RunError(deployment, env).None? && env.runner.Completed?
      ensures deployment.status == (if ok then Succeeded else Failed)
      ensures deployment.completions == old(deployment.completions) + 1
      ensures importantLog == old(importantLog) + ErrorLog(RunError(deployment, env))
      ensures outputRedirected == if ReachesRunner(deployment, env) then env.runner.Raised? else old(outputRedirected)
      ensures env.directoryError.Some? ==> deployScript == old(deployScript) && stageScript == old(stageScript)
      ensures env.directoryError.None? ==>
        && deployScript.Some?
        && |deployScript.value| == |deployment.stage.project.parameters| + 1 + |DeployHooks|
      ensures env.directoryError.None? && StageWriteFails(deployment) ==> stageScript == Some([])
      ensures env.directoryError.None? && !StageWriteFails(deployment) ==>
        && stageScript.Some?
        && |stageScript.value| == |IncludedRoles(deployment.stage.roles, deployment.excludedHostIds)|
                                  + |deployment.stage.parameters| + |deployment.stage.recipes|
    {
      actions := Some(deployment.task);
      var executed := Execute(env);
      if !executed {
        deployment.CompleteWithError();
        ok := false;
      } else {
        deployment.CompleteSuccessfully();
        ok := true;
      }
    }
  }
}
