/** `getLicenseInformationForCompilation`: a fold over the compilation's file paths that,
    for every path the filter matches, reads the package at the captured root path and
    stores its record under the captured dependency name. */
module Discovery {
  import opened Wrappers
  import opened JsValue
  import opened Records
  import opened Tables

  /** Reading the package at a root path. */
  type Reader = string -> Result<Record, Failure>

  /** The reader the plugin uses: `getLicenseInformationForDependency` on the host's
      disk. */
  function PackageReader(host: Host): (reader: Reader) {
    rootPath => GetLicenseInformationForDependency(host, rootPath)
  }

  /** The two groups the filter captures from a matching path. */
  datatype Capture = Capture(rootPath: string, dependencyName: string)

  /** `dependencyPath.match(filter)`, reduced to its two groups; `None` when it does not
      match. */
  type Filter = string -> Option<Capture>

  /** The path is captured under dependency name `k`. */
  predicate NamedBy(filter: Filter, path: string, k: string) {
    filter(path).Some? && filter(path).value.dependencyName == k
  }

  /** The path is not captured, or the package at its root path can be read. */
  predicate Resolves(read: Reader, filter: Filter, path: string) {
    filter(path).None? || read(filter(path).value.rootPath).Ok?
  }

  /** The dependency names captured from the paths, in order. */
  function CapturedNames(filter: Filter, paths: seq<string>): (names: seq<string>) {
    if paths == [] then []
    else
      (match filter(paths[0]) case None => [] case Some(c) => [c.dependencyName])
      + CapturedNames(filter, paths[1..])
  }

  /** Reference definition of the fold from accumulator `memo`: an unmatched path changes
      nothing, a matched one stores the package's record under its name (a new name goes
      last, a repeated one is overwritten in place), and the first unreadable package aborts
      the whole fold, as the exception `require` throws does. */
  function InformationFold(read: Reader, filter: Filter, memo: Table, paths: seq<string>): (result: Result<Table, Failure>)
    decreases |paths|
  {
    if paths == [] then Ok(memo)
    else
      match filter(paths[0])
      case None => InformationFold(read, filter, memo, paths[1..])
      case Some(c) =>
        match read(c.rootPath)
        case Err(e) => Err(e)
        case Ok(r) => InformationFold(read, filter, Put(memo, c.dependencyName, r), paths[1..])
  }

  /** `getLicenseInformationForCompilation`: the paths of `compilation.fileDependencies`,
      in their order, folded into an initially empty table. */
  method GetLicenseInformationForCompilation(host: Host, fileDependencies: seq<string>, filter: Filter)
    returns (result: Result<Table, Failure>)
    ensures result == InformationFold(PackageReader(host), filter, [], fileDependencies)
  {
    ghost var read := PackageReader(host);
    var memo: Table := [];
    var i := 0;
    assert fileDependencies[i..] == fileDependencies;
    while i < |fileDependencies|
      invariant 0 <= i <= |fileDependencies|
      invariant InformationFold(read, filter, memo, fileDependencies[i..]) == InformationFold(read, filter, [], fileDependencies)
    {
      var dependencyPath := fileDependencies[i];
      assert fileDependencies[i..][0] == dependencyPath && fileDependencies[i..][1..] == fileDependencies[i + 1..];
      var match_ := filter(dependencyPath);
      if match_.Some? {
        var rootPath, dependencyName := match_.value.rootPath, match_.value.dependencyName;
        var information := GetLicenseInformationForDependency(host, rootPath);
        if information.Err? {
          return Err(information.error);
        }
        memo := Put(memo, dependencyName, information.value);
      }
      i := i + 1;
    }
    result := Ok(memo);
  }

  // ---------------------------------------------------------------------------------------
  // What the fold computes.

  /** The fold succeeds exactly when every matched path's package can be read. */
  lemma {:induction false} InformationFoldOk(read: Reader, filter: Filter, memo: Table, paths: seq<string>)
    ensures InformationFold(read, filter, memo, paths).Ok?
      <==> forall i :: 0 <= i < |paths| ==> Resolves(read, filter, paths[i])
    decreases |paths|
  {
    if paths != [] {
      assert forall i :: 1 <= i < |paths| ==> paths[i] == paths[1..][i - 1];
      match filter(paths[0])
      case None =>
        InformationFoldOk(read, filter, memo, paths[1..]);
      case Some(c) =>
        match read(c.rootPath)
        case Err(e) =>
        case Ok(r) =>
          InformationFoldOk(read, filter, Put(memo, c.dependencyName, r), paths[1..]);
    }
  }

  /** A failed fold reports the failure of the first path whose package cannot be read. */
  lemma {:induction false} InformationFoldErr(read: Reader, filter: Filter, memo: Table, paths: seq<string>)
    requires InformationFold(read, filter, memo, paths).Err?
    ensures exists i :: (0 <= i < |paths| && !Resolves(read, filter, paths[i])
      && (forall j :: 0 <= j < i ==> Resolves(read, filter, paths[j]))
      && read(filter(paths[i]).value.rootPath)
         == Err(InformationFold(read, filter, memo, paths).error))
    decreases |paths|
  {
    var e := InformationFold(read, filter, memo, paths).error;
    match filter(paths[0])
    case None =>
      InformationFoldErr(read, filter, memo, paths[1..]);
      var i :| (0 <= i < |paths[1..]| && !Resolves(read, filter, paths[1..][i])
        && (forall j :: 0 <= j < i ==> Resolves(read, filter, paths[1..][j]))
        && read(filter(paths[1..][i]).value.rootPath) == Err(e));
      assert forall j :: 1 <= j <= i + 1 ==> paths[j] == paths[1..][j - 1];
    case Some(c) =>
      match read(c.rootPath)
      case Err(_) =>
      case Ok(r) =>
        var memo' := Put(memo, c.dependencyName, r);
        InformationFoldErr(read, filter, memo', paths[1..]);
        var i :| (0 <= i < |paths[1..]| && !Resolves(read, filter, paths[1..][i])
          && (forall j :: 0 <= j < i ==> Resolves(read, filter, paths[1..][j]))
          && read(filter(paths[1..][i]).value.rootPath) == Err(e));
        assert forall j :: 1 <= j <= i + 1 ==> paths[j] == paths[1..][j - 1];
  }

  /** The keys of the result: those of `memo` and the names captured from matched paths,
      and no others, all distinct. */
  lemma {:induction false} InformationFoldKeys(read: Reader, filter: Filter, memo: Table, paths: seq<string>)
    requires DistinctKeys(memo)
    ensures var result := InformationFold(read, filter, memo, paths);
      result.Ok? ==> (DistinctKeys(result.value)
        && forall k :: k in Keys(result.value) <==> k in Keys(memo) || k in CapturedNames(filter, paths))
    decreases |paths|
  {
    if paths != [] {
      match filter(paths[0])
      case None =>
        InformationFoldKeys(read, filter, memo, paths[1..]);
      case Some(c) =>
        match read(c.rootPath)
        case Err(e) =>
        case Ok(r) =>
          var memo' := Put(memo, c.dependencyName, r);
          PutReads(memo, c.dependencyName, r);
          PutKeySet(memo, c.dependencyName, r);
          InformationFoldKeys(read, filter, memo', paths[1..]);
    }
  }

  /** A key that no remaining path names keeps the record `memo` holds for it. */
  lemma {:induction false} InformationFoldKeeps(read: Reader, filter: Filter, memo: Table, paths: seq<string>, k: string)
    requires DistinctKeys(memo) && k in Keys(memo)
    requires forall j :: 0 <= j < |paths| ==> !NamedBy(filter, paths[j], k)
    requires InformationFold(read, filter, memo, paths).Ok?
    ensures k in Keys(InformationFold(read, filter, memo, paths).value)
      && Lookup(InformationFold(read, filter, memo, paths).value, k) == Lookup(memo, k)
    decreases |paths|
  {
    if paths != [] {
      assert forall j :: 1 <= j < |paths| ==> paths[j] == paths[1..][j - 1];
      match filter(paths[0])
      case None =>
        InformationFoldKeeps(read, filter, memo, paths[1..], k);
      case Some(c) =>
        var r := read(c.rootPath).value;
        var memo' := Put(memo, c.dependencyName, r);
        assert c.dependencyName != k;
        PutReads(memo, c.dependencyName, r);
        PutOther(memo, c.dependencyName, r, k);
        InformationFoldKeeps(read, filter, memo', paths[1..], k);
    }
  }

  /** A later path with the same name overwrites an earlier one: the record stored under a
      name is the one read from the root path of the last path captured under that name. */
  lemma {:induction false} InformationFoldLastWins(read: Reader, filter: Filter, memo: Table, paths: seq<string>, i: nat)
    requires DistinctKeys(memo) && i < |paths| && filter(paths[i]).Some?
    requires forall j :: i < j < |paths| ==> !NamedBy(filter, paths[j], filter(paths[i]).value.dependencyName)
    requires InformationFold(read, filter, memo, paths).Ok?
    ensures var c := filter(paths[i]).value;
      var result := InformationFold(read, filter, memo, paths).value;
      && c.dependencyName in Keys(result)
      && read(c.rootPath).Ok?
      && Lookup(result, c.dependencyName) == read(c.rootPath).value
    decreases |paths|
  {
    var c := filter(paths[i]).value;
    var k := c.dependencyName;
    var rest := paths[1..];
    assert forall j :: 0 <= j < |rest| ==> rest[j] == paths[j + 1];
    var next: Table;
    match filter(paths[0]) {
      case None =>
        next := memo;
      case Some(c0) =>
        assert read(c0.rootPath).Ok?;
        next := Put(memo, c0.dependencyName, read(c0.rootPath).value);
        PutReads(memo, c0.dependencyName, read(c0.rootPath).value);
    }
    assert InformationFold(read, filter, memo, paths) == InformationFold(read, filter, next, rest);
    if i == 0 {
      assert filter(paths[0]) == Some(c);
      assert k in Keys(next) && Lookup(next, k) == read(c.rootPath).value;
      InformationFoldKeeps(read, filter, next, rest, k);
    } else {
      assert rest[i - 1] == paths[i];
      InformationFoldLastWins(read, filter, next, rest, i - 1);
    }
  }

  /** When every record the reader returns came from JSON, so does every record of the
      result. */
  lemma {:induction false} InformationFoldClean(read: Reader, filter: Filter, memo: Table, paths: seq<string>)
    requires CleanTable(memo)
    requires forall p :: read(p).Ok? ==> CleanRecord(read(p).value)
    ensures var result := InformationFold(read, filter, memo, paths);
      result.Ok? ==> CleanTable(result.value)
    decreases |paths|
  {
    if paths != [] {
      match filter(paths[0])
      case None =>
        InformationFoldClean(read, filter, memo, paths[1..]);
      case Some(c) =>
        match read(c.rootPath)
        case Err(e) =>
        case Ok(r) =>
          PutClean(memo, c.dependencyName, r);
          InformationFoldClean(read, filter, Put(memo, c.dependencyName, r), paths[1..]);
    }
  }

  /** The package reader returns only records that came from JSON when the manifest it
      reads did. */
  lemma PackageReaderClean(host: Host, rootPath: string)
    requires ManifestClean(host.manifestAt(rootPath + "/package.json"))
    ensures var r := PackageReader(host)(rootPath); r.Ok? ==> CleanRecord(r.value)
  {
    DependencyRecordClean(host, rootPath);
  }

  /** When every manifest on the disk came from JSON, every record of the compilation's
      table did too, so the deep copies the policy passes make change nothing. */
  lemma CompilationClean(host: Host, filter: Filter, paths: seq<string>)
    requires forall p :: ManifestClean(host.manifestAt(p))
    ensures var result := InformationFold(PackageReader(host), filter, [], paths);
      result.Ok? ==> CleanTable(result.value)
  {
    var read := PackageReader(host);
    forall p ensures read(p).Ok? ==> CleanRecord(read(p).value) {
      PackageReaderClean(host, p);
    }
    InformationFoldClean(read, filter, [], paths);
  }

  /** The result of the whole fold, from the empty table: keys exactly the captured names,
      distinct, and each holding the record of the last path captured under it. */
  lemma InformationResult(read: Reader, filter: Filter, paths: seq<string>)
    ensures var result := InformationFold(read, filter, [], paths);
      result.Ok? ==> (DistinctKeys(result.value)
        && forall k :: k in Keys(result.value) <==> k in CapturedNames(filter, paths))
    ensures var result := InformationFold(read, filter, [], paths);
      result.Ok? ==> forall i ::
        (0 <= i < |paths| && filter(paths[i]).Some?
         && (forall j :: i < j < |paths| ==> !NamedBy(filter, paths[j], filter(paths[i]).value.dependencyName)))
        ==> (filter(paths[i]).value.dependencyName in Keys(result.value)
             && read(filter(paths[i]).value.rootPath).Ok?
             && Lookup(result.value, filter(paths[i]).value.dependencyName) == read(filter(paths[i]).value.rootPath).value)
  {
    InformationFoldKeys(read, filter, [], paths);
    if InformationFold(read, filter, [], paths).Ok? {
      forall i | 0 <= i < |paths| && filter(paths[i]).Some?
          && (forall j :: i < j < |paths| ==> !NamedBy(filter, paths[j], filter(paths[i]).value.dependencyName))
        ensures filter(paths[i]).value.dependencyName in Keys(InformationFold(read, filter, [], paths).value)
          && read(filter(paths[i]).value.rootPath).Ok?
          && Lookup(InformationFold(read, filter, [], paths).value, filter(paths[i]).value.dependencyName)
             == read(filter(paths[i]).value.rootPath).value
      {
        InformationFoldLastWins(read, filter, [], paths, i);
      }
    }
  }
}
