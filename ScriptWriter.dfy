/** `write_deploy`, `write_stage`, `find_host_user` and `after_flow`: the two
    Capistrano configuration files a deployment writes before it runs. A
    file is modelled as the sequence of lines handed to `puts`, in order. */
module ScriptWriter {
  import opened Wrappers
  import opened RubyString
  import opened ParameterPrinter

  /** A role of a stage, bound to one host (its id and its name). */
  datatype Role = Role(name: string, hostId: nat, hostName: string)

  datatype Recipe = Recipe(body: string)

  datatype Project = Project(parameters: seq<Parameter>)

  datatype Stage = Stage(name: string, roles: seq<Role>, parameters: seq<Parameter>,
                         recipes: seq<Recipe>, project: Project)

  /** What stops a stage file from being written: the project has no
      parameter named `user`, so `find_by_name('user')` gives nil and asking
      nil for its value raises. */
  datatype WriteError = UserParameterMissing

  /** The Capistrano tasks after which the custom log hook runs, in the
      order they are written. */
  const DeployHooks: seq<string> := ["deploy:started", "deploy:updated", "deploy:published", "deploy:finished"]

  const FlowPrefix: string := "after '"
  const FlowSuffix: string := "', :custom_log"

  /** `after_flow(task)`: `after '<task>', :custom_log`. */
  function AfterFlow(task: string): string {
    FlowPrefix + task + FlowSuffix
  }

  /** Reads a hook line back: the task of a line of the `after_flow` form. */
  function FlowTask(line: string): (r: Option<string>)
    ensures r.Some? ==> |r.value| + |FlowPrefix| + |FlowSuffix| == |line|
  {
    if |line| >= |FlowPrefix| + |FlowSuffix|
       && line[..|FlowPrefix|] == FlowPrefix
       && line[|line| - |FlowSuffix|..] == FlowSuffix
    then Some(line[|FlowPrefix|..|line| - |FlowSuffix|])
    else None
  }

  /** The hook line names exactly the task it was written for, whatever
      characters the task holds. */
  lemma FlowTaskOfAfterFlow(task: string)
    ensures FlowTask(AfterFlow(task)) == Some(task)
  {
    var line := AfterFlow(task);
    assert line[..|FlowPrefix|] == FlowPrefix;
    assert line[|line| - |FlowSuffix|..] == FlowSuffix;
    assert line[|FlowPrefix|..|line| - |FlowSuffix|] == task;
  }

  /** Only hook lines are read back as hooks: a line that names a task is
      the hook line of that task. */
  lemma AfterFlowOfFlowTask(line: string)
    requires FlowTask(line).Some?
    ensures AfterFlow(FlowTask(line).value) == line
  {
    var task := FlowTask(line).value;
    assert line == line[..|FlowPrefix|] + task + line[|line| - |FlowSuffix|..];
  }

  /** The line `puts` writes for a `print_parameter` result: `puts nil`
      writes an empty line. */
  function ParameterLine(p: Parameter, promptConfig: map<string, string>): string {
    PrintParameter(p, promptConfig).GetOr("")
  }

  /** Index of the first parameter called `name`, the record that
      `find_by_name` returns. */
  function FirstNamed(ps: seq<Parameter>, name: string): (r: Option<nat>)
    ensures r.None? <==> forall k :: 0 <= k < |ps| ==> ps[k].name != name
    ensures r.Some? ==>
      && r.value < |ps| && ps[r.value].name == name
      && (forall k :: 0 <= k < r.value ==> ps[k].name != name)
  {
    if ps == [] then None
    else if ps[0].name == name then Some(0)
    else match FirstNamed(ps[1..], name)
      case None => None
      case Some(k) => Some(k + 1)
  }

  /** `find_host_user(project)`: the stored value of the project's first
      `user` parameter (which may itself be nil), or the error raised when
      there is none. */
  function FindHostUser(project: Project): Result<Option<string>, WriteError> {
    match FirstNamed(project.parameters, "user")
    case None => Failure(UserParameterMissing)
    case Some(k) => Success(project.parameters[k].value)
  }

  /** The lookup fails exactly when the project has no `user` parameter, and
      otherwise gives the stored value of the first one. */
  lemma FindHostUserSpec(project: Project)
    ensures var r := FindHostUser(project);
      r.Failure? <==> forall k :: 0 <= k < |project.parameters| ==> project.parameters[k].name != "user"
    ensures var r := FindHostUser(project);
      r.Success? ==> exists k ::
        && 0 <= k < |project.parameters| && project.parameters[k].name == "user"
        && r.value == project.parameters[k].value
        && (forall k' :: 0 <= k' < k ==> project.parameters[k'].name != "user")
  {
    var ps := project.parameters;
    match FirstNamed(ps, "user")
    case None =>
    case Some(k) =>
      assert ps[k].name == "user" && FindHostUser(project).value == ps[k].value;
  }

  /** A role is written unless the deployment lists its host id, as a
      decimal string, among the excluded host ids. */
  predicate Included(role: Role, excludedHostIds: seq<string>) {
    DecimalString(role.hostId) !in excludedHostIds
  }

  /** Distinct host ids have distinct decimal forms, so listing one host's
      id never excludes another host. */
  lemma {:induction false} DecimalStringInjective(a: nat, b: nat)
    requires DecimalString(a) == DecimalString(b)
    ensures a == b
  {
    var digits := ['0', '1', '2', '3', '4', '5', '6', '7', '8', '9'];
    var da, db := DecimalString(a), DecimalString(b);
    assert da[|da| - 1] == digits[a % 10];
    assert db[|db| - 1] == digits[b % 10];
    assert a % 10 == b % 10;
    assert a >= 10 <==> |da| >= 2;
    assert b >= 10 <==> |db| >= 2;
    if a >= 10 {
      assert da[..|da| - 1] == DecimalString(a / 10);
      assert db[..|db| - 1] == DecimalString(b / 10);
      DecimalStringInjective(a / 10, b / 10);
    }
  }

  /** An excluded id written with a leading zero, such as `"07"`, matches no
      host: `to_s` never writes one. */
  lemma ZeroPaddedIdExcludesNothing(role: Role, id: string)
    requires |id| >= 2 && id[0] == '0'
    ensures Included(role, [id])
  {
    DecimalStringNoLeadingZero(role.hostId);
  }

  /** Excluding `"07"` keeps the role on host 7. */
  lemma ExampleZeroPaddedId(role: Role)
    requires role.hostId == 7
    ensures IncludedRoles([role], ["07"]) == [role]
  {
    ZeroPaddedIdExcludesNothing(role, "07");
    assert [role][..0] == [];
  }

  /** The roles that get a line, in stage order. */
  function IncludedRoles(roles: seq<Role>, excludedHostIds: seq<string>): (r: seq<Role>)
    ensures |r| <= |roles|
  {
    if roles == [] then []
    else
      var last := roles[|roles| - 1];
      var rest := IncludedRoles(roles[..|roles| - 1], excludedHostIds);
      if Included(last, excludedHostIds) then rest + [last] else rest
  }

  /** A role is written exactly when it is a stage role that is included. */
  lemma {:induction false} IncludedRolesMembers(roles: seq<Role>, excludedHostIds: seq<string>)
    ensures forall x :: x in IncludedRoles(roles, excludedHostIds) <==> x in roles && Included(x, excludedHostIds)
  {
    if roles != [] {
      var init, last := roles[..|roles| - 1], roles[|roles| - 1];
      IncludedRolesMembers(init, excludedHostIds);
      assert roles == init + [last];
    }
  }

  /** Extending the roles by one extends the included roles by that role
      exactly when it is included. */
  lemma IncludedStep(roles: seq<Role>, excludedHostIds: seq<string>, i: nat)
    requires i < |roles|
    ensures IncludedRoles(roles[..i + 1], excludedHostIds)
      == IncludedRoles(roles[..i], excludedHostIds) + (if Included(roles[i], excludedHostIds) then [roles[i]] else [])
  {
    assert roles[..i + 1][..i] == roles[..i];
  }

  /** With nothing excluded every role is written, in order. */
  lemma {:induction false} NothingExcluded(roles: seq<Role>)
    ensures IncludedRoles(roles, []) == roles
  {
    if roles != [] {
      var init, last := roles[..|roles| - 1], roles[|roles| - 1];
      NothingExcluded(init);
      assert Included(last, []);
      assert IncludedRoles(roles, []) == IncludedRoles(init, []) + [last];
      assert init + [last] == roles;
    }
  }

  /** Excluding one host id drops exactly the roles on that host. */
  lemma ExcludingOneHost(roles: seq<Role>, hostId: nat)
    ensures forall x :: x in IncludedRoles(roles, [DecimalString(hostId)]) <==> x in roles && x.hostId != hostId
  {
    IncludedRolesMembers(roles, [DecimalString(hostId)]);
    forall x | x in roles
      ensures Included(x, [DecimalString(hostId)]) <==> x.hostId != hostId
    {
      if DecimalString(x.hostId) == DecimalString(hostId) {
        DecimalStringInjective(x.hostId, hostId);
      }
    }
  }

  /** Two roles on different hosts, the first host excluded: only the
      second role is written. */
  lemma ExampleOneOfTwoExcluded(first: Role, second: Role)
    requires first.hostId != second.hostId
    ensures IncludedRoles([first, second], [DecimalString(first.hostId)]) == [second]
  {
    var excluded := [DecimalString(first.hostId)];
    if DecimalString(second.hostId) == DecimalString(first.hostId) {
      DecimalStringInjective(second.hostId, first.hostId);
    }
    assert [first, second][..1] == [first];
    assert [first][..0] == [];
    assert IncludedRoles([first], excluded) == [];
  }

  /** `role :<name>, %w{<user>@<host>}`; a nil user leaves the part before
      `@` empty. */
  function RoleLine(role: Role, user: Option<string>): string {
    "role :" + role.name + ", %w{" + user.GetOr("") + "@" + role.hostName + "}"
  }

  /** The `configuration_parameters.each { puts print_parameter }` loop
      shared by both files: one line per parameter, after those already
      written. */
  method PutParameters(lines: seq<string>, ps: seq<Parameter>, promptConfig: map<string, string>)
    returns (out: seq<string>)
    ensures |out| == |lines| + |ps|
    ensures forall k :: 0 <= k < |lines| ==> out[k] == lines[k]
    ensures forall k :: 0 <= k < |ps| ==> out[|lines| + k] == ParameterLine(ps[k], promptConfig)
  {
    out := lines;
    var j := 0;
    while j < |ps|
      invariant j <= |ps| && |out| == |lines| + j
      invariant forall k :: 0 <= k < |lines| ==> out[k] == lines[k]
      invariant forall k :: 0 <= k < j ==> out[|lines| + k] == ParameterLine(ps[k], promptConfig)
    {
      out := out + [ParameterLine(ps[j], promptConfig)];
      j := j + 1;
    }
  }

  /** The `recipes.each { puts recipe.body }` loop: each body as written. */
  method PutRecipes(lines: seq<string>, recipes: seq<Recipe>) returns (out: seq<string>)
    ensures |out| == |lines| + |recipes|
    ensures forall k :: 0 <= k < |lines| ==> out[k] == lines[k]
    ensures forall k :: 0 <= k < |recipes| ==> out[|lines| + k] == recipes[k].body
  {
    out := lines;
    var n := 0;
    while n < |recipes|
      invariant n <= |recipes| && |out| == |lines| + n
      invariant forall k :: 0 <= k < |lines| ==> out[k] == lines[k]
      invariant forall k :: 0 <= k < n ==> out[|lines| + k] == recipes[k].body
    {
      out := out + [recipes[n].body];
      n := n + 1;
    }
  }

  /** `write_deploy`: a line per project parameter, then the hook line for
      the stage, then one for each of the four deploy tasks. */
  method WriteDeploy(project: Project, stageName: string, promptConfig: map<string, string>)
    returns (lines: seq<string>)
    ensures |lines| == |project.parameters| + 1 + |DeployHooks|
    ensures forall k :: 0 <= k < |project.parameters| ==>
      lines[k] == ParameterLine(project.parameters[k], promptConfig)
    ensures lines[|project.parameters|] == AfterFlow(stageName)
    ensures forall k :: 0 <= k < |DeployHooks| ==>
      lines[|project.parameters| + 1 + k] == AfterFlow(DeployHooks[k])
  {
    var ps := project.parameters;
    lines := PutParameters([], ps, promptConfig);
    lines := lines + [AfterFlow(stageName)];
    lines := PutFlows(lines, DeployHooks);
  }

  /** The `after_flow` loop over the deploy hooks: a hook line per task, in
      order. */
  method PutFlows(lines: seq<string>, tasks: seq<string>) returns (out: seq<string>)
    ensures |out| == |lines| + |tasks|
    ensures forall k :: 0 <= k < |lines| ==> out[k] == lines[k]
    ensures forall k :: 0 <= k < |tasks| ==> out[|lines| + k] == AfterFlow(tasks[k])
  {
    out := lines;
    var h := 0;
    while h < |tasks|
      invariant h <= |tasks| && |out| == |lines| + h
      invariant forall k :: 0 <= k < |lines| ==> out[k] == lines[k]
      invariant forall k :: 0 <= k < h ==> out[|lines| + k] == AfterFlow(tasks[k])
    {
      out := out + [AfterFlow(tasks[h])];
      h := h + 1;
    }
  }

  /** The role part of `write_stage`: a line per role whose host is not
      excluded, in stage order. The host user is looked up for each such
      role; when the project has no `user` parameter the first of them
      raises, before any line has been written. */
  method WriteRoles(roles: seq<Role>, excludedHostIds: seq<string>, project: Project)
    returns (r: Result<seq<string>, WriteError>)
    ensures r.Failure? <==> IncludedRoles(roles, excludedHostIds) != [] && FindHostUser(project).Failure?
    ensures r.Success? ==>
      var included := IncludedRoles(roles, excludedHostIds);
      && |r.value| == |included|
      && (forall k :: 0 <= k < |included| ==>
            FindHostUser(project).Success? && r.value[k] == RoleLine(included[k], FindHostUser(project).value))
  {
    var lines: seq<string> := [];
    ghost var written: seq<Role> := [];
    var i := 0;
    while i < |roles|
      invariant i <= |roles|
      invariant written == IncludedRoles(roles[..i], excludedHostIds)
      invariant written != [] ==> FindHostUser(project).Success?
      invariant |lines| == |written|
      invariant forall k :: 0 <= k < |written| ==>
        FindHostUser(project).Success? && lines[k] == RoleLine(written[k], FindHostUser(project).value)
    {
      IncludedStep(roles, excludedHostIds, i);
      if Included(roles[i], excludedHostIds) {
        var user := FindHostUser(project);
        if user.Failure? {
          assert IncludedRoles(roles, excludedHostIds) != [] by {
            IncludedRolesMembers(roles, excludedHostIds);
            assert roles[i] in roles;
          }
          return Failure(user.error);
        }
        lines := lines + [RoleLine(roles[i], user.value)];
        written := written + [roles[i]];
      }
      i := i + 1;
    }
    assert roles[..i] == roles;
    r := Success(lines);
  }

  /** `write_stage`: the role lines, then a line per stage parameter, then
      each recipe body; nothing but the error when a role line raises. */
  method WriteStage(stage: Stage, excludedHostIds: seq<string>, promptConfig: map<string, string>)
    returns (r: Result<seq<string>, WriteError>)
    ensures var included := IncludedRoles(stage.roles, excludedHostIds);
      r.Failure? <==> included != [] && FindHostUser(stage.project).Failure?
    ensures r.Success? ==>
      var included := IncludedRoles(stage.roles, excludedHostIds);
      var ps := stage.parameters;
      var lines := r.value;
      && |lines| == |included| + |ps| + |stage.recipes|
      && (forall k :: 0 <= k < |included| ==>
            FindHostUser(stage.project).Success?
            && lines[k] == RoleLine(included[k], FindHostUser(stage.project).value))
      && (forall k :: 0 <= k < |ps| ==> lines[|included| + k] == ParameterLine(ps[k], promptConfig))
      && (forall k :: 0 <= k < |stage.recipes| ==> lines[|included| + |ps| + k] == stage.recipes[k].body)
  {
    var roleResult := WriteRoles(stage.roles, excludedHostIds, stage.project);
    if roleResult.Failure? {
      return Failure(roleResult.error);
    }
    var lines := PutParameters(roleResult.value, stage.parameters, promptConfig);
    lines := PutRecipes(lines, stage.recipes);
    r := Success(lines);
  }
}
