/** The dependency record built from an installed package's manifest, the override patches
    applied to it, and the locating of its license text. */
module Records {
  import opened Wrappers
  import opened JsValue

  /** One dependency's metadata. A field holding `Undefined` is an absent property. */
  datatype Record = Record(
    name: Json,
    version: Json,
    author: Json,
    repository: Json,
    licenseName: Json,
    licenseText: Json)

  datatype Field = Name | Version | Author | Repository | LicenseName | LicenseText

  function FieldOf(r: Record, f: Field): (v: Json) {
    match f
    case Name => r.name
    case Version => r.version
    case Author => r.author
    case Repository => r.repository
    case LicenseName => r.licenseName
    case LicenseText => r.licenseText
  }

  /** An override patch: the record fields it sets (`Some`, possibly to `undefined`) and
      those it leaves alone (`None`). */
  datatype Patch = Patch(
    name: Option<Json>,
    version: Option<Json>,
    author: Option<Json>,
    repository: Option<Json>,
    licenseName: Option<Json>,
    licenseText: Option<Json>)

  function PatchField(p: Patch, f: Field): (o: Option<Json>) {
    match f
    case Name => p.name
    case Version => p.version
    case Author => p.author
    case Repository => p.repository
    case LicenseName => p.licenseName
    case LicenseText => p.licenseText
  }

  /** `Object.assign(r, p)`: every field the patch sets takes the patch's value, every other
      field keeps its own. */
  function Assign(r: Record, p: Patch): (q: Record)
    ensures forall f :: FieldOf(q, f) == PatchField(p, f).GetOr(FieldOf(r, f))
  {
    Record(
      p.name.GetOr(r.name),
      p.version.GetOr(r.version),
      p.author.GetOr(r.author),
      p.repository.GetOr(r.repository),
      p.licenseName.GetOr(r.licenseName),
      p.licenseText.GetOr(r.licenseText))
  }

  /** The record as the JSON round trip of the table leaves it. */
  function CopyRecord(r: Record): (q: Record) {
    Record(Copy(r.name), Copy(r.version), Copy(r.author), Copy(r.repository),
           Copy(r.licenseName), Copy(r.licenseText))
  }

  predicate CleanRecord(r: Record) {
    Clean(r.name) && Clean(r.version) && Clean(r.author) && Clean(r.repository)
    && Clean(r.licenseName) && Clean(r.licenseText)
  }

  /** A record whose fields came from JSON survives the deep copy unchanged; every copy is
      such a record. */
  lemma CopyRecordOfClean(r: Record)
    ensures CleanRecord(CopyRecord(r))
    ensures CleanRecord(r) ==> CopyRecord(r) == r
  {
    CopyIsClean(r.name);
    CopyIsClean(r.version);
    CopyIsClean(r.author);
    CopyIsClean(r.repository);
    CopyIsClean(r.licenseName);
    CopyIsClean(r.licenseText);
    if CleanRecord(r) {
      CopyOfClean(r.name);
      CopyOfClean(r.version);
      CopyOfClean(r.author);
      CopyOfClean(r.repository);
      CopyOfClean(r.licenseName);
      CopyOfClean(r.licenseText);
    }
  }

  // ---------------------------------------------------------------------------------------
  // Reading an installed package. The file system is a parameter.

  /** What the pipeline can observe of the disk: the parsed manifest at a path (`None` when
      `require` throws because the file is missing or is not JSON), whether a file exists,
      and a file's text. */
  datatype Host = Host(
    manifestAt: string -> Option<Json>,
    fileExists: string -> bool,
    fileText: string -> string)

  /** The license file names tried, in order. */
  const LicenseFilenames: seq<string> :=
    ["LICENSE", "LICENSE.md", "LICENSE.txt", "license", "license.md", "license.txt"]

  /** `licenseFilenames.find(...)`: the first name in `names` for which a file exists. */
  function FindLicenseFilename(host: Host, dependencyPath: string, names: seq<string>): (r: Option<string>)
    ensures r.Some? <==> exists i :: 0 <= i < |names| && host.fileExists(dependencyPath + "/" + names[i])
    ensures r.Some? ==> exists i :: (0 <= i < |names| && names[i] == r.value
      && host.fileExists(dependencyPath + "/" + names[i])
      && forall j :: 0 <= j < i ==> !host.fileExists(dependencyPath + "/" + names[j]))
  {
    if names == [] then None
    else if host.fileExists(dependencyPath + "/" + names[0]) then Some(names[0])
    else
      var r := FindLicenseFilename(host, dependencyPath, names[1..]);
      assert forall i :: 1 <= i < |names| ==> names[i] == names[1..][i - 1];
      r
  }

  /** `getLicenseContents`: the text of the first license file that exists, or `undefined`. */
  function GetLicenseContents(host: Host, dependencyPath: string): (text: Json)
    ensures text == Undefined <==>
      forall i :: 0 <= i < |LicenseFilenames| ==> !host.fileExists(dependencyPath + "/" + LicenseFilenames[i])
    ensures text != Undefined ==> exists i :: (0 <= i < |LicenseFilenames|
      && host.fileExists(dependencyPath + "/" + LicenseFilenames[i])
      && (forall j :: 0 <= j < i ==> !host.fileExists(dependencyPath + "/" + LicenseFilenames[j]))
      && text == Str(host.fileText(dependencyPath + "/" + LicenseFilenames[i])))
  {
    match FindLicenseFilename(host, dependencyPath, LicenseFilenames)
    case None => Undefined
    case Some(filename) => Str(host.fileText(dependencyPath + "/" + filename))
  }

  /** Why reading an installed package failed: `require` threw, or the manifest was `null`
      and reading `package.name` threw. */
  datatype Failure = ManifestUnreadable(manifestPath: string) | ManifestIsNullish(manifestPath: string)

  /** `getLicenseInformationForDependency`: `name`, `version` and `license` are copied
      verbatim, `author` is `author.name` when that is truthy and otherwise the raw
      `author`, `repository` likewise from `repository.url`, and the license text is the
      first license file's. */
  function GetLicenseInformationForDependency(host: Host, dependencyPath: string): (r: Result<Record, Failure>)
    ensures host.manifestAt(dependencyPath + "/package.json") == None
      <==> r == Err(ManifestUnreadable(dependencyPath + "/package.json"))
    ensures host.manifestAt(dependencyPath + "/package.json") in {Some(Null), Some(Undefined)}
      <==> r == Err(ManifestIsNullish(dependencyPath + "/package.json"))
    ensures r.Ok? <==> (host.manifestAt(dependencyPath + "/package.json").Some?
      && host.manifestAt(dependencyPath + "/package.json").value !in {Null, Undefined})
    ensures r.Ok? ==>
      var package := host.manifestAt(dependencyPath + "/package.json").value;
      && r.value.name == Get(package, "name")
      && r.value.version == Get(package, "version")
      && r.value.licenseName == Get(package, "license")
      && r.value.licenseText == GetLicenseContents(host, dependencyPath)
    ensures r.Ok? ==>
      var a := Get(host.manifestAt(dependencyPath + "/package.json").value, "author");
      r.value.author == if Truthy(a) && Truthy(Get(a, "name")) then Get(a, "name") else a
    ensures r.Ok? ==>
      var p := Get(host.manifestAt(dependencyPath + "/package.json").value, "repository");
      r.value.repository == if Truthy(p) && Truthy(Get(p, "url")) then Get(p, "url") else p
  {
    var manifestPath := dependencyPath + "/package.json";
    match host.manifestAt(manifestPath)
    case None => Err(ManifestUnreadable(manifestPath))
    case Some(package) =>
      if package == Null || package == Undefined then Err(ManifestIsNullish(manifestPath))
      else Ok(Record(
        Get(package, "name"),
        Get(package, "version"),
        TruthyFieldOr(Get(package, "author"), "name"),
        TruthyFieldOr(Get(package, "repository"), "url"),
        Get(package, "license"),
        GetLicenseContents(host, dependencyPath)))
  }

  /** The manifest, when there is one, is a value that came from JSON. */
  predicate ManifestClean(m: Option<Json>) {
    m.Some? ==> Clean(m.value)
  }

  /** A record read from a manifest that came from JSON has only JSON values in it, so the
      deep copies the policy passes make of it change nothing. */
  lemma DependencyRecordClean(host: Host, dependencyPath: string)
    requires ManifestClean(host.manifestAt(dependencyPath + "/package.json"))
    ensures var r := GetLicenseInformationForDependency(host, dependencyPath);
      r.Ok? ==> CleanRecord(r.value)
  {
    var m := host.manifestAt(dependencyPath + "/package.json");
    if m.Some? {
      GetClean(m.value, "name");
      GetClean(m.value, "version");
      GetClean(m.value, "license");
      GetClean(m.value, "author");
      GetClean(m.value, "repository");
      GetClean(Get(m.value, "author"), "name");
      GetClean(Get(m.value, "repository"), "url");
    }
  }
}
