/** The schematic's view of the generated project: a virtual file store
    addressed by root-relative keys, the decoded workspace beside it, and the
    JSON codec the edits use to read and rewrite configuration files. */
module Host {
  import opened Wrappers
  import opened Json
  import opened Workspaces
  import Paths

  /** The virtual file store: root-relative keys to file text. */
  type Files = map<string, string>

  /** The store works on keys obtained by resolving a name from the root. */
  function Key(name: string): (k: string)
    ensures Paths.IsKey(k)
  {
    Paths.RelativeToRoot("/", name)
  }

  /** Writing a file twice keeps only the second text. */
  lemma Overwrite(files: Files, key: string, first: string, second: string)
    ensures files[key := first][key := second] == files[key := second]
  {
  }

  datatype Tree = Tree(files: Files, workspace: Workspace)

  /** `JSON.parse` (absent when it throws) and `JSON.stringify(v, null, 2)`. */
  datatype Codec = Codec(parse: string -> Option<Json>, stringify: Json -> string)

  /** Parsing what the codec printed gives the value back. */
  ghost predicate RoundTrips(c: Codec) {
    forall v :: c.parse(c.stringify(v)) == Some(v)
  }

  datatype HostError =
      /** `host.read(name)!` returned null and `.toString` threw. */
    | FileMissing(name: string)
      /** `JSON.parse` threw on the file's text. */
    | InvalidJson(name: string)
      /** The edit of the decoded value threw. */
    | Thrown(error: JsError)
      /** `host.delete` of a file that is not in the store. */
    | DeleteMissing(name: string)

  predicate Exists(files: Files, name: string) {
    Key(name) in files
  }

  /** `host.delete(name)`. */
  function Delete(files: Files, name: string): (r: Result<Files, HostError>)
    ensures r.Success? <==> Exists(files, name)
    ensures r.Success? ==> r.value.Keys == files.Keys - {Key(name)}
    ensures r.Success? ==> forall k :: k in r.value ==> r.value[k] == files[k]
  {
    if Key(name) in files then Success(files - {Key(name)}) else Failure(DeleteMissing(name))
  }

  /** `if (host.exists(name)) host.delete(name)`: never fails. */
  function DeleteIfExists(files: Files, name: string): (r: Files)
    ensures !Exists(r, name)
    ensures r.Keys == files.Keys - {Key(name)}
    ensures forall k :: k in r ==> r[k] == files[k]
  {
    if Exists(files, name) then Delete(files, name).value else files
  }

  /** The decoded contents of a file: absent when the file is missing or is
      not JSON. */
  function ReadJson(files: Files, codec: Codec, name: string): Option<Json> {
    if Key(name) in files then codec.parse(files[Key(name)]) else None
  }

  /** Read the file, parse it, edit the value, overwrite the file with the
      printed result: the shape shared by every configuration edit. */
  function EditJsonFile(files: Files, codec: Codec, name: string, edit: Json -> Result<Json, JsError>): (r: Result<Files, HostError>)
    ensures !Exists(files, name) ==> r == Failure(FileMissing(name))
    ensures Exists(files, name) && ReadJson(files, codec, name).None? ==> r == Failure(InvalidJson(name))
    ensures r.Success? ==> ReadJson(files, codec, name).Some? && edit(ReadJson(files, codec, name).value).Success?
    ensures r.Success? ==> r.value.Keys == files.Keys
    ensures r.Success? ==> forall k :: k in files && k != Key(name) ==> r.value[k] == files[k]
  {
    var key := Key(name);
    if key !in files then Failure(FileMissing(name))
    else match codec.parse(files[key])
      case None => Failure(InvalidJson(name))
      case Some(v) =>
        match edit(v)
        case Failure(e) => Failure(Thrown(e))
        case Success(v') => Success(files[key := codec.stringify(v')])
  }

  /** Reading an edited file back gives the edited value, and the edit fails
      only when the file is missing, is not JSON, or the edit throws. */
  lemma EditJsonReadsBack(files: Files, codec: Codec, name: string, edit: Json -> Result<Json, JsError>)
    requires RoundTrips(codec)
    ensures EditJsonFile(files, codec, name, edit).Success? <==>
      ReadJson(files, codec, name).Some? && edit(ReadJson(files, codec, name).value).Success?
    ensures EditJsonFile(files, codec, name, edit).Success? ==>
      ReadJson(EditJsonFile(files, codec, name, edit).value, codec, name) == Some(edit(ReadJson(files, codec, name).value).value)
  {
    if EditJsonFile(files, codec, name, edit).Success? {
      var v' := edit(ReadJson(files, codec, name).value).value;
      assert codec.parse(codec.stringify(v')) == Some(v');
    }
  }

  /** An edit of one file leaves the decoded contents of every other file as
      they were. */
  lemma EditJsonFrame(files: Files, codec: Codec, name: string, edit: Json -> Result<Json, JsError>, other: string)
    requires EditJsonFile(files, codec, name, edit).Success?
    requires Key(other) != Key(name)
    ensures ReadJson(EditJsonFile(files, codec, name, edit).value, codec, other) == ReadJson(files, codec, other)
    ensures Exists(EditJsonFile(files, codec, name, edit).value, other) == Exists(files, other)
  {
  }
}
