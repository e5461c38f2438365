/** The Jest migration of a freshly generated project: remove Karma, add the
    Jest packages, retarget the spec TypeScript configuration at Jest, and
    point every project's `test` target at the Jest builder. */
module Jest {
  import opened Wrappers
  import opened Json
  import opened Host
  import opened Workspaces
  import opened PackageJson
  import Lists
  import Paths

  const KarmaConfigPath: string := "karma.conf.js"
  const TestEntryPath: string := "/src/test.ts"
  const TsConfigSpecPath: string := "/tsconfig.spec.json"
  const TestFileSuffix: string := "test.ts"
  const JestBuilder: string := "@angular-builders/jest:run"
  const SpectatorCollection: string := "@ngneat/spectator"

  /** The Karma packages removed from the manifest, in removal order. */
  const KarmaPackages: seq<string> := [
    "karma",
    "karma-chrome-launcher",
    "karma-coverage-istanbul-reporter",
    "karma-jasmine",
    "karma-jasmine-html-reporter"
  ]

  /** The Jest packages added to the manifest, in insertion order: the three
      of the initial list, then the two pushed after it. */
  const JestDependencies: seq<NodeDependency> := [
    NodeDependency(Dev, "@types/jest", "^25.0.0"),
    NodeDependency(Dev, "@angular-builders/jest", "^9.0.0-beta.3"),
    NodeDependency(Dev, "jest", "^25.0.0"),
    NodeDependency(Dev, "ng-mocks", "^8.0.0"),
    NodeDependency(Dev, "@ngneat/spectator", "^4.11.0")
  ]

  /** The spectator schematics' defaults stored in every project. */
  const SpectatorSchematics: Json := Obj(map[
    "@ngneat/spectator:spectator-component" := Obj(map["style" := Str("scss"), "changeDetection" := Str("OnPush"), "jest" := Bool(true)]),
    "@ngneat/spectator:spectator-service" := Obj(map["jest" := Bool(true)]),
    "@ngneat/spectator:spectator-directive" := Obj(map["jest" := Bool(true)])
  ])

  /** The workspace CLI setting that makes spectator the default collection. */
  const SpectatorCli: Json := Obj(map["defaultCollection" := Str(SpectatorCollection)])

  /** The store keys of the files the migration touches. */
  lemma KnownKeys()
    ensures Key(KarmaConfigPath) == "karma.conf.js"
    ensures Key(TestEntryPath) == "src/test.ts"
    ensures Key(TsConfigSpecPath) == "tsconfig.spec.json"
    ensures Key(PackageJsonPath) == "package.json"
  {
    KarmaConfigKey();
    TestEntryKey();
    SpecConfigKey();
    ManifestKey();
  }

  lemma SpecConfigKey()
    ensures Key(TsConfigSpecPath) == "tsconfig.spec.json"
  {
    Paths.SegmentIsKey("tsconfig.spec.json");
    Paths.RootedKeyRoundTrip("/", "tsconfig.spec.json");
  }

  lemma ManifestKey()
    ensures Key(PackageJsonPath) == "package.json"
  {
    Paths.SegmentIsKey("package.json");
    Paths.RootedKeyRoundTrip("/", "package.json");
  }

  lemma KarmaConfigKey()
    ensures Key(KarmaConfigPath) == "karma.conf.js"
  {
    Paths.SegmentIsKey("karma.conf.js");
    Paths.RelativeKeyRoundTrip("karma.conf.js");
  }

  lemma TestEntryKey()
    ensures Key(TestEntryPath) == "src/test.ts"
  {
    var segs := ["src", "test.ts"];
    assert Paths.Canonical(segs);
    Paths.JoinIsKey(segs);
    assert Paths.Join(segs) == "src/test.ts";
    Paths.RootedKeyRoundTrip("/", "src/test.ts");
  }

  // ---------------------------------------------------------------------
  // removeKarma

  /** `removeKarma`: delete the Karma configuration (which must exist),
      delete the Karma entry file when it exists, and remove the Karma
      packages. */
  function RemoveKarma(files: Files, codec: Codec): (r: Result<Files, HostError>)
    ensures !Exists(files, KarmaConfigPath) ==> r == Failure(DeleteMissing(KarmaConfigPath))
    ensures r.Success? ==> !Exists(r.value, KarmaConfigPath) && !Exists(r.value, TestEntryPath)
    ensures r.Success? ==> r.value.Keys == files.Keys - {Key(KarmaConfigPath), Key(TestEntryPath)}
    ensures r.Success? ==> forall k :: k in r.value && k != Key(PackageJsonPath) ==> r.value[k] == files[k]
  {
    var afterConfig :- Delete(files, KarmaConfigPath);
    RemoveDependencies(DeleteIfExists(afterConfig, TestEntryPath), codec, KarmaPackages)
  }

  /** After `removeKarma` no dependency section names a Karma package, every
      other dependency is listed exactly as before, and a missing Karma
      configuration is the only way the deletions fail. */
  lemma RemoveKarmaClears(files: Files, codec: Codec)
    requires RoundTrips(codec)
    requires RemoveKarma(files, codec).Success?
    ensures Manifest(files, codec).Some? && Manifest(RemoveKarma(files, codec).value, codec).Some?
    ensures forall t, n :: n in KarmaPackages ==> !HasDependency(Manifest(RemoveKarma(files, codec).value, codec).value, t, n)
    ensures forall t, n :: n !in KarmaPackages ==>
      (HasDependency(Manifest(RemoveKarma(files, codec).value, codec).value, t, n) <==> HasDependency(Manifest(files, codec).value, t, n))
    ensures forall t :: SectionOpen(Manifest(files, codec).value, t) ==>
      SectionOpen(Manifest(RemoveKarma(files, codec).value, codec).value, t)
  {
    KnownKeys();
    var afterConfig := Delete(files, KarmaConfigPath).value;
    var afterEntry := DeleteIfExists(afterConfig, TestEntryPath);
    assert Manifest(afterEntry, codec) == Manifest(files, codec);
    RemoveDependenciesClears(afterEntry, codec, KarmaPackages);
  }

  // ---------------------------------------------------------------------
  // editTsSpecConfig

  /** A spec file entry that `endsWith('test.ts')`. */
  predicate IsTestFile(v: Json) {
    v.Str? && EndsWith(v.s, TestFileSuffix)
  }

  /** Index i holds the first test file of the list. */
  predicate FirstTestFile(items: seq<Json>, i: int) {
    0 <= i < |items| && IsTestFile(items[i]) && forall j :: 0 <= j < i ==> !IsTestFile(items[j])
  }

  /** The `findIndex` callback throws before a test file is found: some
      entry that is not a string comes before every test file. */
  predicate ThrowsBeforeMatch(items: seq<Json>) {
    exists j :: 0 <= j < |items| && !items[j].Str? && forall i :: 0 <= i < j ==> !IsTestFile(items[i])
  }

  /** `files.findIndex(file => file.endsWith('test.ts'))`, from index i on;
      `endsWith` on an entry that is not a string throws. */
  function FindTestFile(items: seq<Json>, i: nat): (r: Result<Option<nat>, JsError>)
    requires i <= |items|
    requires forall j :: 0 <= j < i ==> items[j].Str? && !IsTestFile(items[j])
    ensures r.Success? <==> !ThrowsBeforeMatch(items)
    ensures r.Success? && r.value.Some? ==> FirstTestFile(items, r.value.value)
    ensures r == Success(None) <==> forall j :: 0 <= j < |items| ==> items[j].Str? && !IsTestFile(items[j])
    decreases |items| - i
  {
    if i == |items| then Success(None)
    else match items[i]
      case Str(s) =>
        if EndsWith(s, TestFileSuffix) then
          assert forall j :: 0 <= j < |items| && !items[j].Str? ==> exists k :: 0 <= k <= i && IsTestFile(items[k]) && k < j by {
            forall j | 0 <= j < |items| && !items[j].Str?
              ensures exists k :: 0 <= k <= i && IsTestFile(items[k]) && k < j
            {
              assert i < j;
            }
          }
          Success(Some(i))
        else FindTestFile(items, i + 1)
      case _ =>
        Failure(TypeError("file.endsWith"))
  }

  /** `files.splice(idx, 1)` after the search: only the first test file
      goes, and a list without one is left as it was. */
  function WithoutFirstTestFile(items: seq<Json>): (r: Result<seq<Json>, JsError>)
    ensures r.Success? <==> !ThrowsBeforeMatch(items)
    ensures r.Success? && (forall j :: 0 <= j < |items| ==> !IsTestFile(items[j])) ==> r.value == items
    ensures r.Success? ==> forall i :: FirstTestFile(items, i) ==> r.value == items[..i] + items[i + 1..]
  {
    match FindTestFile(items, 0)
    case Failure(e) => Failure(e)
    case Success(None) => Success(items)
    case Success(Some(i)) =>
      assert forall k :: FirstTestFile(items, k) ==> k == i;
      Success(Lists.RemoveAt(items, i))
  }

  /** `types` after the splice of the first "jasmine" and the unshift of
      "jest": "jest" first, then the old entries in their order, less the
      first "jasmine". */
  function JestTypes(types: seq<Json>): (r: seq<Json>)
    ensures |r| >= 1 && r[0] == Str("jest")
    ensures |r| == if Str("jasmine") in types then |types| else |types| + 1
  {
    Lists.RemoveFirstSpec(types, Str("jasmine"));
    [Str("jest")] + Lists.RemoveFirst(types, Str("jasmine"))
  }

  /** After "jest" come the old entries in their order: all of them when
      there was no "jasmine", and otherwise all but the first "jasmine",
      which is the only entry to leave the multiset. */
  lemma JestTypesKeepOrder(types: seq<Json>)
    ensures Str("jasmine") !in types ==> JestTypes(types)[1..] == types
    ensures Str("jasmine") in types ==>
      exists i :: 0 <= i < |types| && types[i] == Str("jasmine") && Str("jasmine") !in types[..i]
                  && JestTypes(types)[1..] == types[..i] + types[i + 1..]
    ensures Str("jasmine") in types ==> multiset(JestTypes(types)[1..]) == multiset(types) - multiset{Str("jasmine")}
  {
    Lists.RemoveFirstSpec(types, Str("jasmine"));
    assert JestTypes(types)[1..] == Lists.RemoveFirst(types, Str("jasmine"));
  }

  /** The compiler options after the edit: the new types and both flags
      set, every other option untouched. */
  function JestCompilerOptions(options: map<string, Json>): (r: map<string, Json>)
    requires "types" in options && options["types"].Arr?
    ensures At(Obj(r), "types") == Arr(JestTypes(options["types"].items))
    ensures At(Obj(r), "esModuleInterop") == Bool(true)
    ensures At(Obj(r), "emitDecoratorMetadata") == Bool(true)
    ensures OthersUnchanged(options, r, {"types", "esModuleInterop", "emitDecoratorMetadata"})
  {
    options["types" := Arr(JestTypes(options["types"].items))]["esModuleInterop" := Bool(true)]["emitDecoratorMetadata" := Bool(true)]
  }

  /** The value edited by `editTsSpecConfig`. */
  function EditTsSpecConfigDoc(doc: Json): (r: Result<Json, JsError>)
    ensures r.Success? <==>
      && doc.Obj?
      && At(doc, "files").Arr? && !ThrowsBeforeMatch(Elements(At(doc, "files")))
      && At(doc, "compilerOptions").Obj? && At(At(doc, "compilerOptions"), "types").Arr?
    ensures r.Success? ==> r.value.Obj? && OthersUnchanged(doc.fields, r.value.fields, {"files", "compilerOptions"})
    ensures r.Success? ==> At(r.value, "files") == Arr(WithoutFirstTestFile(Elements(At(doc, "files"))).value)
    ensures r.Success? ==> At(r.value, "compilerOptions") == Obj(JestCompilerOptions(At(doc, "compilerOptions").fields))
  {
    if doc.Null? then Failure(TypeError("tsConfig.files"))
    else if !(doc.Obj? && "files" in doc.fields && doc.fields["files"].Arr?) then Failure(TypeError("tsConfig.files.findIndex"))
    else
      var fields := doc.fields;
      match WithoutFirstTestFile(fields["files"].items)
      case Failure(e) => Failure(e)
      case Success(files') =>
        if !("compilerOptions" in fields && fields["compilerOptions"].Obj?
             && "types" in fields["compilerOptions"].fields && fields["compilerOptions"].fields["types"].Arr?)
        then Failure(TypeError("tsConfig.compilerOptions.types.findIndex"))
        else
          var options' := JestCompilerOptions(fields["compilerOptions"].fields);
          Success(Obj(fields["files" := Arr(files')]["compilerOptions" := Obj(options')]))
  }

  /** `editTsSpecConfig`: the edit applied to `/tsconfig.spec.json`. */
  function EditTsSpecConfig(files: Files, codec: Codec): Result<Files, HostError> {
    EditJsonFile(files, codec, TsConfigSpecPath, EditTsSpecConfigDoc)
  }

  // ---------------------------------------------------------------------
  // editAngularConfig

  /** One project after the Jest edit. */
  function JestProject(p: Project): Project {
    Project(p.targets["test" := Target(JestBuilder, None, None)], p.extensions["schematics" := SpectatorSchematics])
  }

  /** `editAngularConfig`, the Jest one. */
  function EditJestWorkspace(ws: Workspace): Workspace {
    Workspace(
      map name | name in ws.projects :: JestProject(ws.projects[name]),
      ws.extensions["cli" := SpectatorCli])
  }

  /** What the edit does to one project. */
  predicate JestProjectEdited(p: Project, p': Project) {
    && p'.targets.Keys == p.targets.Keys + {"test"}
    && p'.targets["test"] == Target(JestBuilder, None, None)
    && (forall t :: t in p.targets && t != "test" ==> p'.targets[t] == p.targets[t])
    && "schematics" in p'.extensions && p'.extensions["schematics"] == SpectatorSchematics
    && OthersUnchanged(p.extensions, p'.extensions, {"schematics"})
  }

  /** After the edit every project's `test` target runs the Jest builder
      with no options and no configurations left, every project carries the
      spectator schematic defaults, the CLI defaults to the spectator
      collection, and nothing else of the workspace changes. */
  lemma JestWorkspaceEdited(ws: Workspace)
    ensures EditJestWorkspace(ws).projects.Keys == ws.projects.Keys
    ensures forall name :: name in ws.projects ==> JestProjectEdited(ws.projects[name], EditJestWorkspace(ws).projects[name])
    ensures "cli" in EditJestWorkspace(ws).extensions && EditJestWorkspace(ws).extensions["cli"] == SpectatorCli
    ensures OthersUnchanged(ws.extensions, EditJestWorkspace(ws).extensions, {"cli"})
  {
    var r := EditJestWorkspace(ws);
    forall name | name in ws.projects
      ensures JestProjectEdited(ws.projects[name], r.projects[name])
    {
      assert r.projects[name] == JestProject(ws.projects[name]);
    }
  }

  /** Running the workspace edit on its own output changes nothing. */
  lemma JestWorkspaceIdempotent(ws: Workspace)
    ensures EditJestWorkspace(EditJestWorkspace(ws)) == EditJestWorkspace(ws)
  {
    var once := EditJestWorkspace(ws);
    var twice := EditJestWorkspace(once);
    assert twice.projects.Keys == once.projects.Keys;
    forall name | name in once.projects
      ensures twice.projects[name] == once.projects[name]
    {
      assert once.projects[name] == JestProject(ws.projects[name]);
      assert twice.projects[name] == JestProject(once.projects[name]);
      JestProjectIdempotent(ws.projects[name]);
    }
    assert twice.projects == once.projects;
    assert twice.extensions == once.extensions;
  }

  lemma JestProjectIdempotent(p: Project)
    ensures JestProject(JestProject(p)) == JestProject(p)
  {
    assert JestProject(JestProject(p)).targets == JestProject(p).targets;
    assert JestProject(JestProject(p)).extensions == JestProject(p).extensions;
  }

  // ---------------------------------------------------------------------
  // jestChain

  /** `jestChain`: removeKarma, then the Jest packages, then the spec
      configuration, then the workspace; the first failure ends the chain. */
  function JestChain(tree: Tree, codec: Codec): (r: Result<Tree, HostError>)
    ensures r.Success? ==> r.value.workspace == EditJestWorkspace(tree.workspace)
    ensures r.Success? ==> r.value.files.Keys == tree.files.Keys - {Key(KarmaConfigPath), Key(TestEntryPath)}
    ensures r.Success? ==> !Exists(r.value.files, KarmaConfigPath) && !Exists(r.value.files, TestEntryPath)
  {
    var withoutKarma :- RemoveKarma(tree.files, codec);
    var withJest :- AddDependencies(withoutKarma, codec, JestDependencies);
    var edited :- EditTsSpecConfig(withJest, codec);
    Success(Tree(edited, EditJestWorkspace(tree.workspace)))
  }

  /** The intermediate stores of a successful chain. */
  lemma JestChainStages(tree: Tree, codec: Codec) returns (withoutKarma: Files, withJest: Files)
    requires JestChain(tree, codec).Success?
    ensures RemoveKarma(tree.files, codec) == Success(withoutKarma)
    ensures AddDependencies(withoutKarma, codec, JestDependencies) == Success(withJest)
    ensures EditTsSpecConfig(withJest, codec).Success?
    ensures JestChain(tree, codec).value.files == EditTsSpecConfig(withJest, codec).value
  {
    var removed := RemoveKarma(tree.files, codec);
    assert removed.Success?;
    withoutKarma := removed.value;
    var added := AddDependencies(withoutKarma, codec, JestDependencies);
    assert added.Success?;
    withJest := added.value;
    var edited := EditTsSpecConfig(withJest, codec);
    assert edited.Success?;
    assert JestChain(tree, codec) == Success(Tree(edited.value, EditJestWorkspace(tree.workspace)));
  }

  /** The manifest after the chain: adding the Jest packages does not bring
      a Karma package back, and the Jest packages are listed when the
      manifest's development section could take them. */
  lemma JestChainManifest(tree: Tree, codec: Codec)
    requires RoundTrips(codec)
    requires JestChain(tree, codec).Success?
    ensures Manifest(tree.files, codec).Some? && Manifest(JestChain(tree, codec).value.files, codec).Some?
    ensures forall t, n :: n in KarmaPackages ==> !HasDependency(Manifest(JestChain(tree, codec).value.files, codec).value, t, n)
    ensures SectionOpen(Manifest(tree.files, codec).value, Dev) ==>
      forall i :: 0 <= i < |JestDependencies| ==>
        HasDependency(Manifest(JestChain(tree, codec).value.files, codec).value, Dev, JestDependencies[i].name)
  {
    var withoutKarma, withJest := JestChainStages(tree, codec);
    RemoveKarmaClears(tree.files, codec);
    JestPackagesAdded(withoutKarma, withJest, codec);
    ManifestSurvivesSpecEdit(withJest, codec);
  }

  /** Adding the Jest packages to a manifest without Karma packages. */
  lemma JestPackagesAdded(withoutKarma: Files, withJest: Files, codec: Codec)
    requires RoundTrips(codec)
    requires AddDependencies(withoutKarma, codec, JestDependencies) == Success(withJest)
    requires Manifest(withoutKarma, codec).Some?
    requires forall t, n :: n in KarmaPackages ==> !HasDependency(Manifest(withoutKarma, codec).value, t, n)
    ensures Manifest(withJest, codec).Some?
    ensures forall t, n :: n in KarmaPackages ==> !HasDependency(Manifest(withJest, codec).value, t, n)
    ensures SectionOpen(Manifest(withoutKarma, codec).value, Dev) ==>
      forall i :: 0 <= i < |JestDependencies| ==> HasDependency(Manifest(withJest, codec).value, Dev, JestDependencies[i].name)
  {
    JestIsNotKarma();
    AddDependenciesKeepsOut(withoutKarma, withJest, codec, JestDependencies, KarmaPackages);
    var m1 := Manifest(withoutKarma, codec).value;
    var m2 := Manifest(withJest, codec).value;
    JestAllDev();
  }

  /** Every Jest package is a development dependency. */
  lemma JestAllDev()
    ensures forall i :: 0 <= i < |JestDependencies| ==> JestDependencies[i].kind == Dev
  {
  }

  /** No Jest package is a Karma package. */
  lemma JestIsNotKarma()
    ensures forall i :: 0 <= i < |JestDependencies| ==> JestDependencies[i].name !in KarmaPackages
  {
  }

  /** The spec configuration edit leaves the manifest alone. */
  lemma ManifestSurvivesSpecEdit(files: Files, codec: Codec)
    requires EditTsSpecConfig(files, codec).Success?
    ensures Manifest(EditTsSpecConfig(files, codec).value, codec) == Manifest(files, codec)
  {
    ManifestKey();
    SpecConfigKey();
    EditJsonFrame(files, codec, TsConfigSpecPath, EditTsSpecConfigDoc, PackageJsonPath);
  }

  /** The spec configuration reaches the last step of the chain as it was:
      removing Karma and adding packages do not touch it. */
  lemma SpecConfigUntouched(tree: Tree, codec: Codec, withoutKarma: Files, withJest: Files)
    requires RemoveKarma(tree.files, codec) == Success(withoutKarma)
    requires AddDependencies(withoutKarma, codec, JestDependencies) == Success(withJest)
    requires Exists(withJest, TsConfigSpecPath)
    ensures ReadJson(withJest, codec, TsConfigSpecPath) == ReadJson(tree.files, codec, TsConfigSpecPath)
  {
    KnownKeys();
    var key := Key(TsConfigSpecPath);
    assert key != Key(PackageJsonPath);
    assert key in withoutKarma;
    assert withoutKarma[key] == tree.files[key];
    assert withJest[key] == withoutKarma[key];
  }

  /** Reading the spec configuration back after its edit. */
  lemma SpecConfigReadBack(files: Files, codec: Codec)
    requires RoundTrips(codec)
    requires EditTsSpecConfig(files, codec).Success?
    ensures ReadJson(files, codec, TsConfigSpecPath).Some?
    ensures EditTsSpecConfigDoc(ReadJson(files, codec, TsConfigSpecPath).value).Success?
    ensures ReadJson(EditTsSpecConfig(files, codec).value, codec, TsConfigSpecPath)
         == Some(EditTsSpecConfigDoc(ReadJson(files, codec, TsConfigSpecPath).value).value)
  {
    EditJsonReadsBack(files, codec, TsConfigSpecPath, EditTsSpecConfigDoc);
  }

  /** The spec configuration after the chain is the edited one: the earlier
      steps do not touch it. */
  lemma JestChainSpecConfig(tree: Tree, codec: Codec)
    requires RoundTrips(codec)
    requires JestChain(tree, codec).Success?
    ensures ReadJson(tree.files, codec, TsConfigSpecPath).Some?
    ensures EditTsSpecConfigDoc(ReadJson(tree.files, codec, TsConfigSpecPath).value).Success?
    ensures ReadJson(JestChain(tree, codec).value.files, codec, TsConfigSpecPath)
         == Some(EditTsSpecConfigDoc(ReadJson(tree.files, codec, TsConfigSpecPath).value).value)
  {
    var withoutKarma, withJest := JestChainStages(tree, codec);
    SpecConfigUntouched(tree, codec, withoutKarma, withJest);
    SpecConfigReadBack(withJest, codec);
  }
}
