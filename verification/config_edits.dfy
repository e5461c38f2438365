/** The configuration edits of the project generator: `editTsConfig`,
    `addConfigToPackageJSON` and `editTsLint`. Each reads a JSON file, edits
    the decoded value with plain property writes, and prints it back; the
    property writes follow the strict-mode rules of module `Json`. */
module ConfigEdits {
  import opened Wrappers
  import opened Json
  import opened Host
  import PackageJson

  const TsConfigPath: string := "/tsconfig.json"
  const TsLintPath: string := "/tslint.json"

  /** A list of `(key, value)` writes without a repeated key. */
  predicate DistinctKeys(settings: seq<(string, Json)>) {
    forall i, j :: 0 <= i < j < |settings| ==> settings[i].0 != settings[j].0
  }

  /** The keys a list of writes touches. */
  function KeysOf(settings: seq<(string, Json)>): set<string> {
    if settings == [] then {} else {settings[0].0} + KeysOf(settings[1..])
  }

  /** A key is written exactly when some write names it. */
  lemma {:induction false} KeysOfSpec(settings: seq<(string, Json)>)
    ensures forall i :: 0 <= i < |settings| ==> settings[i].0 in KeysOf(settings)
    ensures forall k :: k in KeysOf(settings) ==> exists i :: 0 <= i < |settings| && settings[i].0 == k
  {
    if settings != [] {
      var rest := settings[1..];
      KeysOfSpec(rest);
      forall i | 0 < i < |settings| ensures settings[i].0 in KeysOf(settings) {
        assert settings[i] == rest[i - 1];
      }
      forall k | k in KeysOf(settings) ensures exists i :: 0 <= i < |settings| && settings[i].0 == k {
        if k != settings[0].0 {
          var j :| 0 <= j < |rest| && rest[j].0 == k;
          assert settings[j + 1].0 == k;
        }
      }
    }
  }

  /** The fields of an object after the writes of `settings`, in order. */
  function Updated(fields: map<string, Json>, settings: seq<(string, Json)>): map<string, Json>
    decreases |settings|
  {
    if settings == [] then fields
    else Updated(fields[settings[0].0 := settings[0].1], settings[1..])
  }

  /** The writes add exactly their keys, leave every other field alone, and
      when no key repeats each key ends up holding its value. */
  lemma {:induction false} UpdatedSpec(fields: map<string, Json>, settings: seq<(string, Json)>)
    ensures Updated(fields, settings).Keys == fields.Keys + KeysOf(settings)
    ensures OthersUnchanged(fields, Updated(fields, settings), KeysOf(settings))
    ensures DistinctKeys(settings) ==>
      forall i :: 0 <= i < |settings| ==>
        settings[i].0 in Updated(fields, settings) && Updated(fields, settings)[settings[i].0] == settings[i].1
    decreases |settings|
  {
    if settings != [] {
      var (k, v) := settings[0];
      var rest := settings[1..];
      UpdatedSpec(fields[k := v], rest);
      var r := Updated(fields, settings);
      assert r == Updated(fields[k := v], rest);
      if DistinctKeys(settings) {
        assert DistinctKeys(rest) by {
          forall i, j | 0 <= i < j < |rest| ensures rest[i].0 != rest[j].0 {
            assert rest[i] == settings[i + 1] && rest[j] == settings[j + 1];
          }
        }
        forall j | 0 <= j < |rest| ensures rest[j].0 != k {
          assert rest[j] == settings[j + 1];
        }
        assert k !in KeysOf(rest) by {
          KeysOfSpec(rest);
        }
        forall i | 0 <= i < |settings| ensures settings[i].0 in r && r[settings[i].0] == settings[i].1 {
          if i > 0 {
            assert settings[i] == rest[i - 1];
          }
        }
      }
    }
  }

  /** `v[k] = x` for every `(k, v)` of `settings`, in order, on the value
      `v` read from `at`; every write goes to the same value. */
  function SetMembers(v: Option<Json>, settings: seq<(string, Json)>, at: string): (r: Result<Json, JsError>)
    requires settings != []
    ensures r.Success? <==> v.Some? && (v.value.Obj? || v.value.Arr?)
    decreases |settings|
  {
    var first :- SetMember(v, settings[0].0, settings[0].1, at);
    if |settings| == 1 then Success(first) else SetMembers(Some(first), settings[1..], at)
  }

  /** The writes amount to `Updated` on an object, and change nothing on an
      array. */
  lemma {:induction false} SetMembersSpec(v: Option<Json>, settings: seq<(string, Json)>, at: string)
    requires settings != []
    ensures v.Some? && v.value.Obj? ==> SetMembers(v, settings, at) == Success(Obj(Updated(v.value.fields, settings)))
    ensures v.Some? && v.value.Arr? ==> SetMembers(v, settings, at) == Success(v.value)
    decreases |settings|
  {
    if |settings| > 1 && v.Some? && (v.value.Obj? || v.value.Arr?) {
      SetMembersSpec(Some(SetMember(v, settings[0].0, settings[0].1, at).value), settings[1..], at);
    }
  }

  // ---------------------------------------------------------------------
  // editTsConfig

  /** The compiler options `editTsConfig` writes, in order. */
  const CompilerSettings: seq<(string, Json)> := [
    ("strict", Bool(true)),
    ("strictPropertyInitialization", Bool(false)),
    ("noUnusedParameters", Bool(true)),
    ("noUnusedLocals", Bool(true)),
    ("plugins", Arr([Obj(map["name" := Str("typescript-tslint-plugin")])]))
  ]

  /** The compiler options `editTsConfig` writes. */
  const CompilerKeys: set<string> :=
    {"strict", "strictPropertyInitialization", "noUnusedParameters", "noUnusedLocals", "plugins"}

  lemma CompilerSettingsShape()
    ensures DistinctKeys(CompilerSettings)
  {
    assert CompilerSettings[0].0 == "strict";
    assert CompilerSettings[1].0 == "strictPropertyInitialization";
    assert CompilerSettings[2].0 == "noUnusedParameters";
    assert CompilerSettings[3].0 == "noUnusedLocals";
    assert CompilerSettings[4].0 == "plugins";
  }

  lemma CompilerKeysWritten()
    ensures KeysOf(CompilerSettings) == CompilerKeys
  {
    assert CompilerSettings[0].0 == "strict";
    assert CompilerSettings[1].0 == "strictPropertyInitialization";
    assert CompilerSettings[2].0 == "noUnusedParameters";
    assert CompilerSettings[3].0 == "noUnusedLocals";
    assert CompilerSettings[4].0 == "plugins";
  }

  /** The value edited by `editTsConfig`. It fails exactly when the
      configuration is not an object or one of its two option groups is
      neither an object nor an array, and only those two groups change. */
  function EditTsConfigDoc(doc: Json): (r: Result<Json, JsError>)
    ensures r.Success? <==>
      doc.Obj? && Writable(doc, "compilerOptions") && Writable(doc, "angularCompilerOptions")
    ensures r.Success? ==>
      && r.value.Obj?
      && OthersUnchanged(doc.fields, r.value.fields, {"compilerOptions", "angularCompilerOptions"})
  {
    var compiler :- Member(Some(doc), "compilerOptions", "tsConfig");
    var compiler' :- SetMembers(compiler, CompilerSettings, "tsConfig.compilerOptions");
    var withCompiler := doc.fields["compilerOptions" := compiler'];
    var angular := if "angularCompilerOptions" in withCompiler then Some(withCompiler["angularCompilerOptions"]) else None;
    var angular' :- SetMember(angular, "strictTemplates", Bool(true), "tsConfig.angularCompilerOptions");
    Success(Obj(withCompiler["angularCompilerOptions" := angular']))
  }

  /** A group of options that `editTsConfig` can write into. */
  predicate Writable(doc: Json, group: string) {
    At(doc, group).Obj? || At(doc, group).Arr?
  }

  /** The compiler options written into an object. */
  lemma CompilerOptionsWritten(before: map<string, Json>)
    ensures
      var u := Updated(before, CompilerSettings);
      && At(Obj(u), "strict") == Bool(true)
      && At(Obj(u), "strictPropertyInitialization") == Bool(false)
      && At(Obj(u), "noUnusedParameters") == Bool(true)
      && At(Obj(u), "noUnusedLocals") == Bool(true)
      && At(Obj(u), "plugins") == Arr([Obj(map["name" := Str("typescript-tslint-plugin")])])
      && OthersUnchanged(before, u, CompilerKeys)
  {
    UpdatedSpec(before, CompilerSettings);
    CompilerSettingsShape();
    CompilerKeysWritten();
    var u := Updated(before, CompilerSettings);
    assert u[CompilerSettings[0].0] == CompilerSettings[0].1;
    assert u[CompilerSettings[1].0] == CompilerSettings[1].1;
    assert u[CompilerSettings[2].0] == CompilerSettings[2].1;
    assert u[CompilerSettings[3].0] == CompilerSettings[3].1;
    assert u[CompilerSettings[4].0] == CompilerSettings[4].1;
  }

  /** The strictness flags land in `compilerOptions` when it is an object,
      and nothing else in it changes. */
  lemma TsConfigCompilerFlags(doc: Json)
    requires EditTsConfigDoc(doc).Success? && At(doc, "compilerOptions").Obj?
    ensures
      var options := At(EditTsConfigDoc(doc).value, "compilerOptions");
      && options.Obj?
      && At(options, "strict") == Bool(true)
      && At(options, "strictPropertyInitialization") == Bool(false)
      && At(options, "noUnusedParameters") == Bool(true)
      && At(options, "noUnusedLocals") == Bool(true)
      && At(options, "plugins") == Arr([Obj(map["name" := Str("typescript-tslint-plugin")])])
      && OthersUnchanged(At(doc, "compilerOptions").fields, options.fields, CompilerKeys)
  {
    var before := At(doc, "compilerOptions").fields;
    SetMembersSpec(Some(At(doc, "compilerOptions")), CompilerSettings, "tsConfig.compilerOptions");
    CompilerOptionsWritten(before);
    assert At(EditTsConfigDoc(doc).value, "compilerOptions") == Obj(Updated(before, CompilerSettings));
  }

  /** `strictTemplates` lands in `angularCompilerOptions` when it is an
      object, and nothing else in it changes. */
  lemma TsConfigTemplateFlag(doc: Json)
    requires EditTsConfigDoc(doc).Success? && At(doc, "angularCompilerOptions").Obj?
    ensures
      var options := At(EditTsConfigDoc(doc).value, "angularCompilerOptions");
      && options.Obj?
      && At(options, "strictTemplates") == Bool(true)
      && OthersUnchanged(At(doc, "angularCompilerOptions").fields, options.fields, {"strictTemplates"})
  {
  }

  /** `editTsConfig`. */
  function EditTsConfig(files: Files, codec: Codec): Result<Files, HostError> {
    EditJsonFile(files, codec, TsConfigPath, EditTsConfigDoc)
  }

  // ---------------------------------------------------------------------
  // addConfigToPackageJSON

  const HuskyConfig: Json := Obj(map["hooks" := Obj(map["pre-commit" := Str("lint-staged")])])
  const LintStagedConfig: Json := Obj(map[
    "*.{js,json,css,scss,md,ts,html}" := Str("prettier --write"),
    "*.ts" := Str("tslint -c tslint.json -p tsconfig.json --fix")
  ])
  const CommitizenConfig: Json := Obj(map["path" := Str("cz-conventional-changelog")])

  /** The scripts `addConfigToPackageJSON` writes, in order. */
  const ScriptSettings: seq<(string, Json)> := [
    ("test", Str("ng test --watch")),
    ("build", Str("ng build --prod --no-progress")),
    ("test:ci", Str("ng test --ci --silent")),
    ("commit", Str("lint-staged && git-cz --no-verify"))
  ]

  /** The scripts `addConfigToPackageJSON` writes. */
  const ScriptKeys: set<string> := {"test", "build", "test:ci", "commit"}

  lemma ScriptSettingsShape()
    ensures DistinctKeys(ScriptSettings)
  {
    assert ScriptSettings[0].0 == "test";
    assert ScriptSettings[1].0 == "build";
    assert ScriptSettings[2].0 == "test:ci";
    assert ScriptSettings[3].0 == "commit";
  }

  lemma ScriptKeysWritten()
    ensures KeysOf(ScriptSettings) == ScriptKeys
  {
    assert ScriptSettings[0].0 == "test";
    assert ScriptSettings[1].0 == "build";
    assert ScriptSettings[2].0 == "test:ci";
    assert ScriptSettings[3].0 == "commit";
  }

  /** The script table after `delete scripts['e2e']` and the four writes. */
  function EditScripts(scripts: Option<Json>): (r: Result<Json, JsError>)
    ensures r.Success? <==> scripts.Some? && (scripts.value.Obj? || scripts.value.Arr?)
  {
    var afterDelete :- DeleteMember(scripts, "e2e", "packageJson.scripts");
    SetMembers(Some(afterDelete), ScriptSettings, "packageJson.scripts")
  }

  /** On an object the `e2e` script is gone and the four scripts are set,
      the other scripts kept; an array is left as it was. */
  lemma ScriptsEdited(scripts: Json)
    requires scripts.Obj? || scripts.Arr?
    ensures scripts.Arr? ==> EditScripts(Some(scripts)) == Success(scripts)
    ensures scripts.Obj? ==>
      var r := EditScripts(Some(scripts)).value;
      && r.Obj?
      && "e2e" !in r.fields
      && At(r, "test") == Str("ng test --watch")
      && At(r, "build") == Str("ng build --prod --no-progress")
      && At(r, "test:ci") == Str("ng test --ci --silent")
      && At(r, "commit") == Str("lint-staged && git-cz --no-verify")
      && OthersUnchanged(scripts.fields, r.fields, ScriptKeys + {"e2e"})
  {
    SetMembersSpec(Some(scripts), ScriptSettings, "packageJson.scripts");
    if scripts.Obj? {
      var kept := scripts.fields - {"e2e"};
      SetMembersSpec(Some(Obj(kept)), ScriptSettings, "packageJson.scripts");
      assert EditScripts(Some(scripts)).value == Obj(Updated(kept, ScriptSettings));
      ScriptsWritten(kept);
    }
  }

  /** The four scripts written into a script table. */
  lemma ScriptsWritten(before: map<string, Json>)
    ensures
      var u := Updated(before, ScriptSettings);
      && u.Keys == before.Keys + ScriptKeys
      && At(Obj(u), "test") == Str("ng test --watch")
      && At(Obj(u), "build") == Str("ng build --prod --no-progress")
      && At(Obj(u), "test:ci") == Str("ng test --ci --silent")
      && At(Obj(u), "commit") == Str("lint-staged && git-cz --no-verify")
      && OthersUnchanged(before, u, ScriptKeys)
  {
    UpdatedSpec(before, ScriptSettings);
    ScriptSettingsShape();
    ScriptKeysWritten();
    var u := Updated(before, ScriptSettings);
    assert u[ScriptSettings[0].0] == ScriptSettings[0].1;
    assert u[ScriptSettings[1].0] == ScriptSettings[1].1;
    assert u[ScriptSettings[2].0] == ScriptSettings[2].1;
    assert u[ScriptSettings[3].0] == ScriptSettings[3].1;
  }

  /** The value edited by `addConfigToPackageJSON`. */
  function AddConfigToPackageJsonDoc(doc: Json): (r: Result<Json, JsError>)
    ensures r.Success? <==> doc.Obj? && (At(doc, "scripts").Obj? || At(doc, "scripts").Arr?)
  {
    match doc
    case Obj(fields) =>
      var configured := fields["husky" := HuskyConfig]["lint-staged" := LintStagedConfig]["commitizen" := CommitizenConfig];
      var scripts' :- EditScripts(if "scripts" in configured then Some(configured["scripts"]) else None);
      Success(Obj(configured["scripts" := scripts']))
    case Arr(_) =>
      // The three writes are dropped from an array, which has no `scripts`
      // for the delete to act on.
      Failure(TypeError("packageJson.scripts"))
    case _ => Failure(TypeError("packageJson"))
  }

  /** A successful manifest edit writes the three tool configurations,
      replaces `scripts` by the script edit of the original `scripts`, and
      changes nothing else. */
  lemma PackageJsonConfigured(doc: Json)
    requires AddConfigToPackageJsonDoc(doc).Success?
    ensures var r := AddConfigToPackageJsonDoc(doc).value;
      && r.Obj?
      && At(r, "husky") == HuskyConfig
      && At(r, "lint-staged") == LintStagedConfig
      && At(r, "commitizen") == CommitizenConfig
      && OthersUnchanged(doc.fields, r.fields, {"husky", "lint-staged", "commitizen", "scripts"})
      && "scripts" in doc.fields
      && EditScripts(Some(doc.fields["scripts"])) == Success(At(r, "scripts"))
  {
    var fields := doc.fields;
    var configured := fields["husky" := HuskyConfig]["lint-staged" := LintStagedConfig]["commitizen" := CommitizenConfig];
    ToolConfigsWritten(fields);
    var scripts' := EditScripts(Some(configured["scripts"])).value;
    assert AddConfigToPackageJsonDoc(doc).value == Obj(configured["scripts" := scripts']);
  }

  /** The three tool configurations are written over the manifest's fields. */
  lemma ToolConfigsWritten(fields: map<string, Json>)
    ensures var c := fields["husky" := HuskyConfig]["lint-staged" := LintStagedConfig]["commitizen" := CommitizenConfig];
      && c["husky"] == HuskyConfig
      && c["lint-staged"] == LintStagedConfig
      && c["commitizen"] == CommitizenConfig
      && ("scripts" in c <==> "scripts" in fields)
      && ("scripts" in fields ==> c["scripts"] == fields["scripts"])
      && OthersUnchanged(fields, c, {"husky", "lint-staged", "commitizen"})
  {
  }

  /** `addConfigToPackageJSON`. */
  function AddConfigToPackageJson(files: Files, codec: Codec): Result<Files, HostError> {
    EditJsonFile(files, codec, PackageJson.PackageJsonPath, AddConfigToPackageJsonDoc)
  }

  // ---------------------------------------------------------------------
  // editTsLint

  const PrettierPreset: string := "tslint-config-prettier"
  const OnPushRule: string := "prefer-on-push-component-change-detection"

  /** The entries of `extends` that stay in front of the prettier preset:
      none for a falsy value, the entries of an array, and the value itself
      otherwise. */
  function PriorExtends(ext: Option<Json>): seq<Json> {
    if !Truthy(ext) then []
    else if ext.value.Arr? then ext.value.items
    else [ext.value]
  }

  /** The value edited by `editTsLint`. */
  function EditTsLintDoc(doc: Json): (r: Result<Json, JsError>)
    ensures r.Success? <==> doc.Obj? && (At(doc, "rules").Obj? || At(doc, "rules").Arr?)
    ensures r.Success? ==>
      var ext := if "extends" in doc.fields then Some(doc.fields["extends"]) else None;
      && r.value.Obj?
      && At(r.value, "extends") == Arr(PriorExtends(ext) + [Str(PrettierPreset)])
      && OthersUnchanged(doc.fields, r.value.fields, {"extends", "rules"})
    ensures r.Success? && At(doc, "rules").Obj? ==>
      && At(r.value, "rules").Obj?
      && At(At(r.value, "rules"), OnPushRule) == Bool(true)
      && OthersUnchanged(At(doc, "rules").fields, At(r.value, "rules").fields, {OnPushRule})
    ensures r.Success? && At(doc, "rules").Arr? ==> At(r.value, "rules") == At(doc, "rules")
  {
    var ext :- Member(Some(doc), "extends", "tsLint");
    // Pushing onto an array in place and assigning a fresh array give the
    // same document.
    var withExtends :- SetMember(Some(doc), "extends", Arr(PriorExtends(ext) + [Str(PrettierPreset)]), "tsLint");
    var rules :- Member(Some(withExtends), "rules", "tsLint");
    var rules' :- SetMember(rules, OnPushRule, Bool(true), "tsLint.rules");
    Success(Obj(withExtends.fields["rules" := rules']))
  }

  /** `editTsLint`. */
  function EditTsLint(files: Files, codec: Codec): Result<Files, HostError> {
    EditJsonFile(files, codec, TsLintPath, EditTsLintDoc)
  }

  /** There is no guard against a second run: it appends the prettier
      preset again. */
  lemma TsLintSecondRunAppendsAgain(doc: Json)
    requires EditTsLintDoc(doc).Success?
    ensures EditTsLintDoc(EditTsLintDoc(doc).value).Success?
    ensures
      var ext := if "extends" in doc.fields then Some(doc.fields["extends"]) else None;
      At(EditTsLintDoc(EditTsLintDoc(doc).value).value, "extends")
        == Arr(PriorExtends(ext) + [Str(PrettierPreset), Str(PrettierPreset)])
  {
    var once := EditTsLintDoc(doc).value;
    var ext := if "extends" in doc.fields then Some(doc.fields["extends"]) else None;
    assert "extends" in once.fields && once.fields["extends"] == Arr(PriorExtends(ext) + [Str(PrettierPreset)]);
    assert Truthy(Some(once.fields["extends"]));
    assert PriorExtends(ext) + [Str(PrettierPreset)] + [Str(PrettierPreset)]
        == PriorExtends(ext) + [Str(PrettierPreset), Str(PrettierPreset)];
  }
}
