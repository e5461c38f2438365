/** The project generator's own rule: the option normalisation, the edits
    it runs inside the generated project (`removeProtractor`,
    `editAngularConfig`, the tooling packages, and the chain of all edits),
    and the follow-up tasks it schedules. */
module NgNew {
  import opened Wrappers
  import opened Json
  import opened Host
  import opened Workspaces
  import opened PackageJson
  import Jest
  import ConfigEdits
  import OnPush
  import Syntax

  // ---------------------------------------------------------------------
  // removeProtractor

  const ProtractorPackage: string := "protractor"

  /** A store key under the `e2e` directory. */
  predicate UnderE2e(key: string) {
    |key| >= 4 && key[..4] == "e2e/"
  }

  /** The store after `host.getDir('e2e').visit(file => host.delete(file))`:
      the visit only meets files that exist, so no delete can fail. */
  function DeleteE2eFiles(files: Files): (r: Files)
    ensures forall k :: k in r <==> k in files && !UnderE2e(k)
    ensures forall k :: k in r ==> r[k] == files[k]
  {
    map k | k in files && !UnderE2e(k) :: files[k]
  }

  /** `removeProtractor`. */
  function RemoveProtractor(files: Files, codec: Codec): (r: Result<Files, HostError>)
    ensures r.Success? ==> forall k :: k in r.value <==> k in files && !UnderE2e(k)
    ensures r.Success? ==> forall k :: k in files && !UnderE2e(k) && k != Key(PackageJsonPath) ==> r.value[k] == files[k]
  {
    RemovePackageJsonDependency(DeleteE2eFiles(files), codec, ProtractorPackage)
  }

  /** After `removeProtractor` no file is left under `e2e`, no section of
      the manifest lists `protractor`, and every other dependency is listed
      exactly when it was before, with the same version. */
  lemma RemoveProtractorClears(files: Files, codec: Codec)
    requires RoundTrips(codec)
    requires RemoveProtractor(files, codec).Success?
    ensures forall k :: k in RemoveProtractor(files, codec).value ==> !UnderE2e(k)
    ensures Manifest(files, codec).Some? && Manifest(RemoveProtractor(files, codec).value, codec).Some?
    ensures forall t :: !HasDependency(Manifest(RemoveProtractor(files, codec).value, codec).value, t, ProtractorPackage)
    ensures forall t, n :: n != ProtractorPackage ==>
      (HasDependency(Manifest(RemoveProtractor(files, codec).value, codec).value, t, n) <==>
       HasDependency(Manifest(files, codec).value, t, n))
  {
    var pruned := DeleteE2eFiles(files);
    Jest.ManifestKey();
    assert Key(PackageJsonPath) == "package.json";
    assert !UnderE2e("package.json");
    assert Manifest(pruned, codec) == Manifest(files, codec);
    assert RemoveDependencies(pruned, codec, [ProtractorPackage]) == RemovePackageJsonDependency(pruned, codec, ProtractorPackage);
    RemoveDependenciesClears(pruned, codec, [ProtractorPackage]);
  }

  // ---------------------------------------------------------------------
  // editAngularConfig

  /** `project.targets.get('lint')!.options!` is defined. */
  predicate LintReady(p: Project) {
    "lint" in p.targets && p.targets["lint"].options.Some?
  }

  /** One project after the edit: no `e2e` target, and `stylish` lint
      output. */
  function StylishProject(p: Project): Project
    requires LintReady(p)
  {
    var lint := p.targets["lint"];
    var targets := p.targets - {"e2e"};
    Project(targets["lint" := lint.(options := Some(lint.options.value["format" := Str("stylish")]))], p.extensions)
  }

  /** `editAngularConfig`: the non-null assertions throw on the first
      project without a lint target or without lint options. */
  function EditAngularConfig(ws: Workspace): (r: Result<Workspace, JsError>)
    ensures r.Success? <==> forall name :: name in ws.projects ==> LintReady(ws.projects[name])
  {
    if forall name :: name in ws.projects ==> LintReady(ws.projects[name]) then
      Success(Workspace(map name | name in ws.projects :: StylishProject(ws.projects[name]), ws.extensions))
    else
      Failure(TypeError("project.targets.get('lint')!.options!"))
  }

  /** What the edit does to one project. */
  predicate StylishProjectEdited(p: Project, p': Project) {
    && p'.targets.Keys == p.targets.Keys - {"e2e"}
    && "lint" in p.targets && p.targets["lint"].options.Some?
    && "lint" in p'.targets && p'.targets["lint"].options.Some?
    && p'.targets["lint"].builder == p.targets["lint"].builder
    && p'.targets["lint"].configurations == p.targets["lint"].configurations
    && At(Obj(p'.targets["lint"].options.value), "format") == Str("stylish")
    && OthersUnchanged(p.targets["lint"].options.value, p'.targets["lint"].options.value, {"format"})
    && (forall t :: t in p'.targets && t != "lint" ==> p'.targets[t] == p.targets[t])
    && p'.extensions == p.extensions
  }

  /** After the edit every project has lost its `e2e` target and lints with
      the `stylish` format; the rest of each project and of the workspace is
      unchanged. */
  lemma AngularConfigEdited(ws: Workspace)
    requires EditAngularConfig(ws).Success?
    ensures EditAngularConfig(ws).value.projects.Keys == ws.projects.Keys
    ensures forall name :: name in ws.projects ==>
      StylishProjectEdited(ws.projects[name], EditAngularConfig(ws).value.projects[name])
    ensures EditAngularConfig(ws).value.extensions == ws.extensions
  {
    var r := EditAngularConfig(ws).value;
    forall name | name in ws.projects
      ensures StylishProjectEdited(ws.projects[name], r.projects[name])
    {
      assert r.projects[name] == StylishProject(ws.projects[name]);
      StylishProjectSpec(ws.projects[name]);
    }
  }

  /** What the edit does to one project. */
  lemma StylishProjectSpec(p: Project)
    requires LintReady(p)
    ensures StylishProjectEdited(p, StylishProject(p))
  {
  }

  /** The edit keeps every project editable, and a second run changes
      nothing more. */
  lemma AngularConfigIdempotent(ws: Workspace)
    requires EditAngularConfig(ws).Success?
    ensures EditAngularConfig(EditAngularConfig(ws).value) == EditAngularConfig(ws)
  {
    var once := EditAngularConfig(ws).value;
    forall name | name in once.projects
      ensures LintReady(once.projects[name])
      ensures StylishProject(once.projects[name]) == once.projects[name]
    {
      assert once.projects[name] == StylishProject(ws.projects[name]);
      StylishProjectIdempotent(ws.projects[name]);
    }
    var twice := EditAngularConfig(once).value;
    assert twice.projects == once.projects;
  }

  lemma StylishProjectIdempotent(p: Project)
    requires LintReady(p)
    ensures LintReady(StylishProject(p))
    ensures StylishProject(StylishProject(p)) == StylishProject(p)
  {
    var once := StylishProject(p);
    var options := once.targets["lint"].options.value;
    assert options["format" := Str("stylish")] == options;
    assert once.targets - {"e2e"} == once.targets;
  }

  // ---------------------------------------------------------------------
  // addDependenciesToPackageJson

  /** The tooling packages, in the order they are added; all development
      dependencies. */
  const BaseDependencies: seq<NodeDependency> := [
    NodeDependency(Dev, "husky", "^4.2.0"),
    NodeDependency(Dev, "lint-staged", "^10.0.0"),
    NodeDependency(Dev, "prettier", "^1.19.0"),
    NodeDependency(Dev, "tslint-config-prettier", "^1.18.0"),
    NodeDependency(Dev, "typescript-tslint-plugin", "^0.5.5"),
    NodeDependency(Dev, "commitizen", "^4.0.0"),
    NodeDependency(Dev, "cz-conventional-changelog", "^3.1.0")
  ]

  /** `addDependenciesToPackageJson`. */
  function AddBaseDependencies(files: Files, codec: Codec): (r: Result<Files, HostError>)
    ensures r.Success? ==> r.value.Keys == files.Keys
    ensures r.Success? ==> forall k :: k in files && k != Key(PackageJsonPath) ==> r.value[k] == files[k]
  {
    AddDependencies(files, codec, BaseDependencies)
  }

  /** Every tooling package is listed as a development dependency
      afterwards when the manifest has a development section to add to, and
      nothing else joins the manifest. */
  lemma BaseDependenciesListed(files: Files, codec: Codec)
    requires RoundTrips(codec)
    requires AddBaseDependencies(files, codec).Success?
    ensures Manifest(files, codec).Some? && Manifest(AddBaseDependencies(files, codec).value, codec).Some?
    ensures SectionOpen(Manifest(files, codec).value, Dev) ==>
      forall i :: 0 <= i < |BaseDependencies| ==>
        HasDependency(Manifest(AddBaseDependencies(files, codec).value, codec).value, Dev, BaseDependencies[i].name)
    ensures forall t, n :: HasDependency(Manifest(AddBaseDependencies(files, codec).value, codec).value, t, n) ==>
      HasDependency(Manifest(files, codec).value, t, n)
      || exists i :: 0 <= i < |BaseDependencies| && BaseDependencies[i].kind == t && BaseDependencies[i].name == n
  {
    AddDependenciesLists(files, codec, BaseDependencies);
    BaseAllDev();
  }

  lemma BaseAllDev()
    ensures forall i :: 0 <= i < |BaseDependencies| ==> BaseDependencies[i].kind == Dev
  {
  }

  // ---------------------------------------------------------------------
  // Options

  /** The schematic's options as given on the command line. */
  type Options = map<string, Json>

  /** `options[key]`, absent when unset. */
  function Get(options: Options, key: string): Option<Json> {
    if key in options then Some(options[key]) else None
  }

  /** `if (!options.directory) options.directory = options.name;`, where an
      unset name leaves the directory unset. */
  function DefaultDirectory(options: Options): (r: Options)
    ensures Get(r, "directory") == if Truthy(Get(options, "directory")) then Get(options, "directory") else Get(options, "name")
    ensures forall k :: k != "directory" ==> Get(r, k) == Get(options, k)
  {
    if Truthy(Get(options, "directory")) then options
    else if "name" in options then options["directory" := options["name"]]
    else options - {"directory"}
  }

  /** The directory keeps a truthy value and otherwise follows the name, so
      defaulting a second time changes nothing. */
  lemma DefaultDirectoryIdempotent(options: Options)
    ensures DefaultDirectory(DefaultDirectory(options)) == DefaultDirectory(options)
  {
    var once := DefaultDirectory(options);
    var twice := DefaultDirectory(once);
    forall k ensures Get(twice, k) == Get(once, k) {
    }
    assert forall k :: k in twice <==> Get(twice, k).Some?;
    assert forall k :: k in once <==> Get(once, k).Some?;
    assert twice.Keys == once.Keys;
  }

  /** The options handed through to Angular's own generator unchanged. */
  const PassedThrough: set<string> := {
    "name", "version", "newProjectRoot", "packageManager", "inlineStyle",
    "inlineTemplate", "prefix", "viewEncapsulation", "routing"
  }

  /** The options fixed for Angular's own generator: non-strict, at the
      root of the new directory, SCSS styles, and no install, git or test
      files of its own. */
  const FixedOptions: map<string, Json> := map[
    "strict" := Bool(false),
    "projectRoot" := Str(""),
    "style" := Str("scss"),
    "skipInstall" := Bool(true),
    "skipGit" := Bool(true),
    "skipTests" := Bool(true)
  ]

  /** No option is both passed through and fixed. */
  lemma OptionGroupsDisjoint()
    ensures PassedThrough !! FixedOptions.Keys
  {
  }

  /** `angularNgNewOptions`. An unset option stays unset. */
  function NgNewOptions(options: Options): Options {
    FixedOptions + map k | k in options && k in PassedThrough :: options[k]
  }

  /** Angular's generator receives the passed-through options as they were
      (unset ones stay unset), the fixed options, and nothing else. */
  lemma NgNewOptionsSpec(options: Options)
    ensures forall k :: k in PassedThrough ==> Get(NgNewOptions(options), k) == Get(options, k)
    ensures forall k :: k in FixedOptions ==> Get(NgNewOptions(options), k) == Some(FixedOptions[k])
    ensures forall k :: k in NgNewOptions(options) ==> k in PassedThrough || k in FixedOptions
  {
    OptionGroupsDisjoint();
  }

  /** Only the passed-through options matter: two option sets that agree on
      them produce the same options for Angular's generator. */
  lemma NgNewOptionsDependOnlyOnPassedThrough(a: Options, b: Options)
    requires forall k :: k in PassedThrough ==> Get(a, k) == Get(b, k)
    ensures NgNewOptions(a) == NgNewOptions(b)
  {
    var pa := map k | k in a && k in PassedThrough :: a[k];
    var pb := map k | k in b && k in PassedThrough :: b[k];
    forall k | k in PassedThrough ensures (k in a <==> k in b) && (k in a ==> a[k] == b[k]) {
      assert Get(a, k) == Get(b, k);
    }
    assert pa.Keys == pb.Keys;
    assert pa == pb;
  }

  /** `typeof commit == 'object' ? commit : !!commit ? {} : false`; `null`
      is an object to `typeof`. */
  function CommitOption(commit: Option<Json>): (r: Json)
    ensures r.Obj? || r.Arr? || r == Null || r == Bool(false)
    ensures commit.Some? && (commit.value.Obj? || commit.value.Arr? || commit.value == Null) ==> r == commit.value
    ensures !Truthy(commit) && commit != Some(Null) ==> r == Bool(false)
    ensures Truthy(commit) && !(commit.value.Obj? || commit.value.Arr? || commit.value == Null) ==> r == Obj(map[])
  {
    match commit
    case Some(Obj(_)) => commit.value
    case Some(Arr(_)) => commit.value
    case Some(Null) => Null
    case _ => if Truthy(commit) then Obj(map[]) else Bool(false)
  }

  /** The normalised value is truthy exactly when the option was, and
      normalising it again changes nothing. */
  lemma CommitOptionKeepsTruthiness(commit: Option<Json>)
    ensures Truthy(Some(CommitOption(commit))) <==> Truthy(commit)
    ensures CommitOption(Some(CommitOption(commit))) == CommitOption(commit)
  {
  }

  // ---------------------------------------------------------------------
  // Tasks

  datatype Task =
      /** `NodePackageInstallTask`. */
    | Install(workingDirectory: Option<Json>, packageManager: Option<Json>)
      /** `RepositoryInitializerTask`. */
    | InitRepository(directory: Option<Json>, commit: Json)

  /** A scheduled task and the positions of the tasks it waits for. */
  datatype Scheduled = Scheduled(task: Task, dependsOn: seq<nat>)

  /** The tasks the last rule schedules, in order; `options` is after the
      directory default. */
  function ScheduleTasks(options: Options): (r: seq<Scheduled>)
    ensures |r| == (if Truthy(Get(options, "skipInstall")) then 0 else 1) + (if Truthy(Get(options, "skipGit")) then 0 else 1)
    ensures forall i :: 0 <= i < |r| ==> forall j :: 0 <= j < |r[i].dependsOn| ==> r[i].dependsOn[j] < i
  {
    var install :=
      if Truthy(Get(options, "skipInstall")) then []
      else [Scheduled(Install(Get(options, "directory"), Get(options, "packageManager")), [])];
    var git :=
      if Truthy(Get(options, "skipGit")) then []
      else [Scheduled(InitRepository(Get(options, "directory"), CommitOption(Get(options, "commit"))),
                      if install != [] then [0] else [])];
    install + git
  }

  /** The install task is scheduled exactly when installing is not
      skipped, the repository task exactly when git is not skipped, and the
      repository task waits for the install task exactly when both are
      scheduled. */
  lemma TasksScheduled(options: Options)
    ensures var r := ScheduleTasks(options);
      (exists i :: 0 <= i < |r| && r[i].task.Install?) <==> !Truthy(Get(options, "skipInstall"))
    ensures var r := ScheduleTasks(options);
      (exists i :: 0 <= i < |r| && r[i].task.InitRepository?) <==> !Truthy(Get(options, "skipGit"))
    ensures var r := ScheduleTasks(options);
      forall i :: 0 <= i < |r| && r[i].task.InitRepository? ==>
        && r[i].task.commit == CommitOption(Get(options, "commit"))
        && (r[i].dependsOn != [] <==> !Truthy(Get(options, "skipInstall")))
        && (r[i].dependsOn != [] ==> r[i].dependsOn == [0] && r[0].task.Install?)
    ensures var r := ScheduleTasks(options);
      forall i :: 0 <= i < |r| ==>
        if r[i].task.Install? then
          r[i].task.workingDirectory == Get(options, "directory") && r[i].task.packageManager == Get(options, "packageManager")
        else
          r[i].task.directory == Get(options, "directory")
  {
    var r := ScheduleTasks(options);
    if !Truthy(Get(options, "skipInstall")) {
      assert r[0].task.Install?;
    }
    if !Truthy(Get(options, "skipGit")) {
      assert r[|r| - 1].task.InitRepository?;
    }
  }

  // ---------------------------------------------------------------------
  // The rule

  datatype NgNewError =
    | HostFailed(cause: HostError)
    | WorkspaceFailed(error: JsError)
    | PatchFailed(problem: OnPush.PatchError)

  /** The edits `applyToSubtree` runs inside the generated project, in
      order; the first failure ends the chain. `cwd` and `parse` are the
      compiler's working directory and parser for the component patch. */
  function EditGenerated(tree: Tree, codec: Codec, cwd: string, parse: string -> seq<Syntax.Statement>): (r: Result<Tree, NgNewError>)
  {
    match Jest.JestChain(tree, codec)
    case Failure(e) => Failure(HostFailed(e))
    case Success(jested) =>
      match RemoveProtractor(jested.files, codec)
      case Failure(e) => Failure(HostFailed(e))
      case Success(pruned) =>
        match EditAngularConfig(jested.workspace)
        case Failure(e) => Failure(WorkspaceFailed(e))
        case Success(ws) =>
          match EditConfigFiles(pruned, codec)
          case Failure(e) => Failure(HostFailed(e))
          case Success(configured) =>
            match OnPush.AddOnPushToComponent(configured, cwd, parse)
            case Failure(e) => Failure(PatchFailed(e))
            case Success(patched) => Success(Tree(patched.files, ws))
  }

  /** The four configuration-file steps of the chain, in order. */
  function EditConfigFiles(files: Files, codec: Codec): (r: Result<Files, HostError>)
    ensures r.Success? ==> r.value.Keys == files.Keys
  {
    var withTools :- AddBaseDependencies(files, codec);
    var withTsConfig :- ConfigEdits.EditTsConfig(withTools, codec);
    var withPackage :- ConfigEdits.AddConfigToPackageJson(withTsConfig, codec);
    ConfigEdits.EditTsLint(withPackage, codec)
  }

  /** After the chain the workspace carries both the Jest and the lint
      edits, the karma files and the end-to-end files are gone, and no
      other file was added or removed. */
  lemma EditGeneratedShape(tree: Tree, codec: Codec, cwd: string, parse: string -> seq<Syntax.Statement>)
    requires EditGenerated(tree, codec, cwd, parse).Success?
    ensures EditAngularConfig(Jest.EditJestWorkspace(tree.workspace)).Success?
    ensures EditGenerated(tree, codec, cwd, parse).value.workspace == EditAngularConfig(Jest.EditJestWorkspace(tree.workspace)).value
    ensures forall k :: k in EditGenerated(tree, codec, cwd, parse).value.files <==>
      k in tree.files && k != Key(Jest.KarmaConfigPath) && k != Key(Jest.TestEntryPath) && !UnderE2e(k)
  {
    var jested := Jest.JestChain(tree, codec);
    assert jested.Success?;
    var pruned := RemoveProtractor(jested.value.files, codec);
    assert pruned.Success?;
    var ws := EditAngularConfig(jested.value.workspace);
    assert ws.Success?;
    var configured := EditConfigFiles(pruned.value, codec);
    assert configured.Success?;
    var patched := OnPush.AddOnPushToComponent(configured.value, cwd, parse);
    assert patched.Success?;
    assert EditGenerated(tree, codec, cwd, parse).value == Tree(patched.value.files, ws.value);
    ChainKeys(tree.files, jested.value.files, pruned.value, patched.value.files);
  }

  lemma ChainKeys(original: Files, jested: Files, pruned: Files, final: Files)
    requires jested.Keys == original.Keys - {Key(Jest.KarmaConfigPath), Key(Jest.TestEntryPath)}
    requires forall k :: k in pruned <==> k in jested && !UnderE2e(k)
    requires final.Keys == pruned.Keys
    ensures forall k :: k in final <==>
      k in original && k != Key(Jest.KarmaConfigPath) && k != Key(Jest.TestEntryPath) && !UnderE2e(k)
  {
  }
}
