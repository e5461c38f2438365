/** The package.json helpers the schematics call from the Angular schematics
    utilities, `addPackageJsonDependency` and `removePackageJsonDependency`.
    Their code is not part of this model; they are modelled by what they do
    to the decoded manifest:
    - adding inserts `name: version` into the dependency type's section when
      the name is not there yet (an existing entry keeps its version),
      creating the section when it is absent and leaving a section that is
      not an object alone;
    - removing deletes the name from each of the four sections that is an
      object;
    - both throw when the manifest is missing, is not JSON, or is not an
      object. */
module PackageJson {
  import opened Wrappers
  import opened Json
  import opened Host

  const PackageJsonPath: string := "/package.json"

  datatype DependencyType = Default | Dev | Peer | Optional

  /** The manifest section that lists dependencies of a type. */
  function SectionName(t: DependencyType): string {
    match t
    case Default => "dependencies"
    case Dev => "devDependencies"
    case Peer => "peerDependencies"
    case Optional => "optionalDependencies"
  }

  datatype NodeDependency = NodeDependency(kind: DependencyType, name: string, version: string)

  /** The field `section` is an object that has the key `name`. */
  predicate SectionHas(fields: map<string, Json>, section: string, name: string) {
    section in fields && fields[section].Obj? && name in fields[section].fields
  }

  /** The manifest lists `name` among the dependencies of type `t`. */
  predicate HasDependency(pkg: Json, t: DependencyType, name: string) {
    pkg.Obj? && SectionHas(pkg.fields, SectionName(t), name)
  }

  /** A dependency of type `t` can be added: the manifest is an object whose
      section is absent or an object. */
  predicate SectionOpen(pkg: Json, t: DependencyType) {
    pkg.Obj? && (SectionName(t) in pkg.fields ==> pkg.fields[SectionName(t)].Obj?)
  }

  /** The manifest is not an object. */
  const NotAnObject: JsError := SchematicsError("package.json is not an object")

  /** `addPackageJsonDependency`, on the decoded manifest. */
  function AddDependency(pkg: Json, dep: NodeDependency): (r: Result<Json, JsError>)
    ensures r.Success? <==> pkg.Obj?
    ensures r.Success? ==> r.value.Obj? && r.value.fields.Keys == pkg.fields.Keys + (if SectionOpen(pkg, dep.kind) then {SectionName(dep.kind)} else {})
    ensures r.Success? ==> OthersUnchanged(pkg.fields, r.value.fields, {SectionName(dep.kind)})
    ensures SectionOpen(pkg, dep.kind) ==> HasDependency(r.value, dep.kind, dep.name)
    ensures SectionOpen(pkg, dep.kind) && !HasDependency(pkg, dep.kind, dep.name) ==>
      r.value.fields[SectionName(dep.kind)].fields[dep.name] == Str(dep.version)
    ensures r.Success? ==> forall t, n :: HasDependency(pkg, t, n) ==>
      HasDependency(r.value, t, n) && r.value.fields[SectionName(t)].fields[n] == pkg.fields[SectionName(t)].fields[n]
    ensures r.Success? ==> forall t, n :: HasDependency(r.value, t, n) && !HasDependency(pkg, t, n) ==>
      t == dep.kind && n == dep.name
    ensures r.Success? ==> forall t :: SectionOpen(pkg, t) ==> SectionOpen(r.value, t)
  {
    var section := SectionName(dep.kind);
    match pkg
    case Obj(fields) =>
      if section !in fields then
        Success(Obj(fields[section := Obj(map[dep.name := Str(dep.version)])]))
      else if fields[section].Obj? && dep.name !in fields[section].fields then
        Success(Obj(fields[section := Obj(fields[section].fields[dep.name := Str(dep.version)])]))
      else
        Success(pkg)
    case _ => Failure(NotAnObject)
  }

  /** Deletes `name` from the section `section` when that section is an
      object. */
  function RemoveFromSection(fields: map<string, Json>, section: string, name: string): (r: map<string, Json>)
    ensures r.Keys == fields.Keys
    ensures forall s :: s in fields && s != section ==> r[s] == fields[s]
    ensures forall s :: s in fields && fields[s].Obj? ==> r[s].Obj?
    ensures forall s, n :: SectionHas(r, s, n) <==> SectionHas(fields, s, n) && !(s == section && n == name)
    ensures forall s, n :: SectionHas(r, s, n) ==> SectionHas(fields, s, n) && r[s].fields[n] == fields[s].fields[n]
  {
    if section in fields && fields[section].Obj? then fields[section := Obj(fields[section].fields - {name})]
    else fields
  }

  /** `removePackageJsonDependency`, on the decoded manifest. */
  function RemoveDependency(pkg: Json, name: string): (r: Result<Json, JsError>)
    ensures r.Success? <==> pkg.Obj?
    ensures r.Success? ==> r.value.Obj? && r.value.fields.Keys == pkg.fields.Keys
  {
    match pkg
    case Obj(fields) =>
      var f1 := RemoveFromSection(fields, SectionName(Default), name);
      var f2 := RemoveFromSection(f1, SectionName(Dev), name);
      var f3 := RemoveFromSection(f2, SectionName(Optional), name);
      Success(Obj(RemoveFromSection(f3, SectionName(Peer), name)))
    case _ => Failure(NotAnObject)
  }

  /** After a removal no section lists the name, every other dependency is
      listed exactly as before, open sections stay open, and the fields
      outside the four sections are unchanged. */
  lemma RemoveDependencySpec(pkg: Json, name: string)
    requires pkg.Obj?
    ensures var r := RemoveDependency(pkg, name).value;
      && (forall t :: !HasDependency(r, t, name))
      && (forall t, n :: n != name ==> (HasDependency(r, t, n) <==> HasDependency(pkg, t, n)))
      && (forall t, n :: n != name && HasDependency(pkg, t, n) ==>
            HasDependency(r, t, n) && r.fields[SectionName(t)].fields[n] == pkg.fields[SectionName(t)].fields[n])
      && (forall t :: SectionOpen(pkg, t) ==> SectionOpen(r, t))
      && (forall k :: k in pkg.fields && k !in SectionNames ==> r.fields[k] == pkg.fields[k])
  {
    var f1 := RemoveFromSection(pkg.fields, SectionName(Default), name);
    var f2 := RemoveFromSection(f1, SectionName(Dev), name);
    var f3 := RemoveFromSection(f2, SectionName(Optional), name);
    var f4 := RemoveFromSection(f3, SectionName(Peer), name);
    assert RemoveDependency(pkg, name).value == Obj(f4);
    forall t ensures !HasDependency(Obj(f4), t, name) {
      match t
      case Default => assert !SectionHas(f1, SectionName(t), name);
      case Dev => assert !SectionHas(f2, SectionName(t), name);
      case Optional => assert !SectionHas(f3, SectionName(t), name);
      case Peer =>
    }
  }

  const SectionNames: set<string> :=
    {"dependencies", "devDependencies", "peerDependencies", "optionalDependencies"}

  /** `addPackageJsonDependency(host, dep)`. */
  function AddPackageJsonDependency(files: Files, codec: Codec, dep: NodeDependency): Result<Files, HostError> {
    EditJsonFile(files, codec, PackageJsonPath, pkg => AddDependency(pkg, dep))
  }

  /** `removePackageJsonDependency(host, name)`. */
  function RemovePackageJsonDependency(files: Files, codec: Codec, name: string): Result<Files, HostError> {
    EditJsonFile(files, codec, PackageJsonPath, pkg => RemoveDependency(pkg, name))
  }

  /** `deps.forEach(d => addPackageJsonDependency(host, d))`: the first
      failure ends the run. */
  function AddDependencies(files: Files, codec: Codec, deps: seq<NodeDependency>): (r: Result<Files, HostError>)
    ensures r.Success? ==> r.value.Keys == files.Keys
    ensures r.Success? ==> forall k :: k in files && k != Key(PackageJsonPath) ==> r.value[k] == files[k]
  {
    if deps == [] then Success(files)
    else
      match AddPackageJsonDependency(files, codec, deps[0])
      case Failure(e) => Failure(e)
      case Success(files') => AddDependencies(files', codec, deps[1..])
  }

  /** `names.forEach(n => removePackageJsonDependency(host, n))`. */
  function RemoveDependencies(files: Files, codec: Codec, names: seq<string>): (r: Result<Files, HostError>)
    ensures r.Success? ==> r.value.Keys == files.Keys
    ensures r.Success? ==> forall k :: k in files && k != Key(PackageJsonPath) ==> r.value[k] == files[k]
  {
    if names == [] then Success(files)
    else
      match RemovePackageJsonDependency(files, codec, names[0])
      case Failure(e) => Failure(e)
      case Success(files') => RemoveDependencies(files', codec, names[1..])
  }

  /** The decoded manifest. */
  function Manifest(files: Files, codec: Codec): Option<Json> {
    ReadJson(files, codec, PackageJsonPath)
  }

  /** The first dependency is listed after its own step, and the later ones
      after the rest of the run, so all of them are listed at the end. */
  lemma AddedListedStep(before: Json, mid: Json, after: Json, deps: seq<NodeDependency>)
    requires deps != [] && before.Obj? && mid == AddDependency(before, deps[0]).value
    requires forall t, n :: HasDependency(mid, t, n) ==> HasDependency(after, t, n)
    requires forall i :: 0 <= i < |deps[1..]| && SectionOpen(mid, deps[1..][i].kind) ==>
      HasDependency(after, deps[1..][i].kind, deps[1..][i].name)
    ensures forall i :: 0 <= i < |deps| && SectionOpen(before, deps[i].kind) ==>
      HasDependency(after, deps[i].kind, deps[i].name)
  {
    forall i | 0 <= i < |deps| && SectionOpen(before, deps[i].kind)
      ensures HasDependency(after, deps[i].kind, deps[i].name)
    {
      if i > 0 {
        assert deps[1..][i - 1] == deps[i];
      }
    }
  }

  /** A listing new at the end of the run is new after the first step, and
      so is the first dependency, or is new after the rest of the run, and so
      is a later one. */
  lemma NewListingStep(before: Json, mid: Json, after: Json, deps: seq<NodeDependency>)
    requires deps != [] && before.Obj? && mid == AddDependency(before, deps[0]).value
    requires forall t, n :: HasDependency(after, t, n) ==>
      HasDependency(mid, t, n) || exists i :: 0 <= i < |deps[1..]| && deps[1..][i].kind == t && deps[1..][i].name == n
    ensures forall t, n :: HasDependency(after, t, n) ==>
      HasDependency(before, t, n) || exists i :: 0 <= i < |deps| && deps[i].kind == t && deps[i].name == n
  {
    forall t, n | HasDependency(after, t, n)
      ensures HasDependency(before, t, n) || exists i :: 0 <= i < |deps| && deps[i].kind == t && deps[i].name == n
    {
      if !HasDependency(mid, t, n) {
        var i :| 0 <= i < |deps[1..]| && deps[1..][i].kind == t && deps[1..][i].name == n;
        assert deps[i + 1] == deps[1..][i];
      } else if !HasDependency(before, t, n) {
        assert deps[0].kind == t && deps[0].name == n;
      }
    }
  }

  /** Adding a list of dependencies to a manifest whose sections can take
      them lists every one of them afterwards, keeps every dependency listed
      before with its version, and lists nothing else new. */
  lemma {:induction false} AddDependenciesLists(files: Files, codec: Codec, deps: seq<NodeDependency>)
    requires RoundTrips(codec)
    requires AddDependencies(files, codec, deps).Success?
    ensures Manifest(files, codec).Some? || deps == []
    ensures deps != [] ==> Manifest(AddDependencies(files, codec, deps).value, codec).Some?
    ensures deps != [] ==> forall t, n :: HasDependency(Manifest(files, codec).value, t, n) ==>
      && HasDependency(Manifest(AddDependencies(files, codec, deps).value, codec).value, t, n)
      && Manifest(AddDependencies(files, codec, deps).value, codec).value.fields[SectionName(t)].fields[n]
         == Manifest(files, codec).value.fields[SectionName(t)].fields[n]
    ensures deps != [] ==> forall i :: 0 <= i < |deps| && SectionOpen(Manifest(files, codec).value, deps[i].kind) ==>
      HasDependency(Manifest(AddDependencies(files, codec, deps).value, codec).value, deps[i].kind, deps[i].name)
    ensures deps != [] ==> forall t, n :: HasDependency(Manifest(AddDependencies(files, codec, deps).value, codec).value, t, n) ==>
      HasDependency(Manifest(files, codec).value, t, n) || exists i :: 0 <= i < |deps| && deps[i].kind == t && deps[i].name == n
  {
    if deps != [] {
      var step := (pkg: Json) => AddDependency(pkg, deps[0]);
      EditJsonReadsBack(files, codec, PackageJsonPath, step);
      var files' := AddPackageJsonDependency(files, codec, deps[0]).value;
      var before := Manifest(files, codec).value;
      var mid := Manifest(files', codec).value;
      assert mid == AddDependency(before, deps[0]).value;
      if deps[1..] != [] {
        AddDependenciesLists(files', codec, deps[1..]);
        var after := Manifest(AddDependencies(files, codec, deps).value, codec).value;
        assert AddDependencies(files, codec, deps) == AddDependencies(files', codec, deps[1..]);
        AddedListedStep(before, mid, after, deps);
        NewListingStep(before, mid, after, deps);
      } else {
        assert AddDependencies(files', codec, deps[1..]) == Success(files');
        forall t, n | HasDependency(mid, t, n) && !HasDependency(before, t, n)
          ensures exists i :: 0 <= i < |deps| && deps[i].kind == t && deps[i].name == n
        {
          assert deps[0].kind == t && deps[0].name == n;
        }
      }
    }
  }

  /** Adding dependencies lists them and brings back none of a set of
      names the manifest did not list. */
  lemma AddDependenciesKeepsOut(files: Files, files': Files, codec: Codec, deps: seq<NodeDependency>, names: seq<string>)
    requires RoundTrips(codec)
    requires AddDependencies(files, codec, deps) == Success(files')
    requires deps != []
    requires forall i :: 0 <= i < |deps| ==> deps[i].name !in names
    requires Manifest(files, codec).Some?
    requires forall t, n :: n in names ==> !HasDependency(Manifest(files, codec).value, t, n)
    ensures Manifest(files', codec).Some?
    ensures forall t, n :: n in names ==> !HasDependency(Manifest(files', codec).value, t, n)
    ensures forall i :: 0 <= i < |deps| && SectionOpen(Manifest(files, codec).value, deps[i].kind) ==>
      HasDependency(Manifest(files', codec).value, deps[i].kind, deps[i].name)
  {
    AddDependenciesLists(files, codec, deps);
  }

  /** Removing a list of names leaves none of them in any section, and
      leaves every other dependency listed exactly as before. */
  lemma {:induction false} RemoveDependenciesClears(files: Files, codec: Codec, names: seq<string>)
    requires RoundTrips(codec)
    requires RemoveDependencies(files, codec, names).Success?
    requires names != []
    ensures Manifest(files, codec).Some? && Manifest(RemoveDependencies(files, codec, names).value, codec).Some?
    ensures forall t, n :: n in names ==> !HasDependency(Manifest(RemoveDependencies(files, codec, names).value, codec).value, t, n)
    ensures forall t, n :: n !in names ==>
      (HasDependency(Manifest(RemoveDependencies(files, codec, names).value, codec).value, t, n) <==> HasDependency(Manifest(files, codec).value, t, n))
    ensures forall t :: SectionOpen(Manifest(files, codec).value, t) ==>
      SectionOpen(Manifest(RemoveDependencies(files, codec, names).value, codec).value, t)
  {
    var step := (pkg: Json) => RemoveDependency(pkg, names[0]);
    EditJsonReadsBack(files, codec, PackageJsonPath, step);
    var files' := RemovePackageJsonDependency(files, codec, names[0]).value;
    var before := Manifest(files, codec).value;
    var mid := Manifest(files', codec).value;
    assert mid == RemoveDependency(before, names[0]).value;
    RemoveDependencySpec(before, names[0]);
    assert RemoveDependencies(files, codec, names) == RemoveDependencies(files', codec, names[1..]);
    if names[1..] != [] {
      RemoveDependenciesClears(files', codec, names[1..]);
      var after := Manifest(RemoveDependencies(files, codec, names).value, codec).value;
      forall t, n | n in names
        ensures !HasDependency(after, t, n)
      {
        if n != names[0] {
          assert n in names[1..];
        }
      }
    } else {
      assert RemoveDependencies(files', codec, names[1..]) == Success(files');
    }
  }
}
