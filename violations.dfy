/** `getLicenseViolations`: one pass over the table in key order that classifies each
    entry's license name and collects a `LicenseError` for each entry that is unlicensed or
    whose license the allow expression does not admit. */
module Violations {
  import opened Wrappers
  import opened JsValue
  import opened Records
  import opened Tables

  /** A `LicenseError`: a build error whose message is the detail behind a fixed prefix. */
  datatype LicenseError = LicenseError(message: string)

  const Prefix: string := "License: "

  /** `new LicenseError(detail)`. */
  function NewLicenseError(detail: string): (e: LicenseError)
    ensures |e.message| == |Prefix| + |detail|
    ensures e.message[..|Prefix|] == Prefix && e.message[|Prefix|..] == detail
  {
    LicenseError(Prefix + detail)
  }

  /** `<key>@<version> is unlicensed`. */
  function UnlicensedMessage(key: string, version: Json): (m: string) {
    key + "@" + ToString(version) + " is unlicensed"
  }

  /** `<key>@<version> has disallowed license <licenseName>`. */
  function DisallowedMessage(key: string, version: Json, licenseName: Json): (m: string) {
    key + "@" + ToString(version) + " has disallowed license " + ToString(licenseName)
  }

  /** The license name is missing or falsy, or is the string `UNLICENSED`. */
  predicate Unlicensed(licenseName: Json) {
    !Truthy(licenseName) || licenseName == Str("UNLICENSED")
  }

  /** The license name is not a valid SPDX expression, or the allow expression does not
      admit it. */
  predicate Disallowed(isValidLicense: Json -> bool, isSatisfiedLicense: (Json, string) -> bool,
                       allow: string, licenseName: Json)
  {
    !isValidLicense(licenseName) || !isSatisfiedLicense(licenseName, allow)
  }

  /** The message for one entry, if it has one. The key is the table key, not
      `record.name`. */
  function Check(isValidLicense: Json -> bool, isSatisfiedLicense: (Json, string) -> bool, allow: string,
                 name: string, r: Record): (detail: Option<string>)
  {
    if Unlicensed(r.licenseName) then Some(UnlicensedMessage(name, r.version))
    else if Disallowed(isValidLicense, isSatisfiedLicense, allow, r.licenseName) then
      Some(DisallowedMessage(name, r.version, r.licenseName))
    else None
  }

  /** The two message forms never coincide: after the common `<key>@<version>` they go on
      with " is" and " has". */
  lemma MessagesDiffer(key: string, version: Json, licenseName: Json)
    ensures UnlicensedMessage(key, version) != DisallowedMessage(key, version, licenseName)
  {
    var head := key + "@" + ToString(version);
    var u := UnlicensedMessage(key, version);
    var d := DisallowedMessage(key, version, licenseName);
    assert u == head + " is unlicensed";
    assert d == head + " has disallowed license " + ToString(licenseName);
    assert u[|head| + 1] == 'i';
    assert d[|head| + 1] == 'h';
  }

  /** The classification of one entry, each case in both directions. */
  lemma CheckMeaning(isValidLicense: Json -> bool, isSatisfiedLicense: (Json, string) -> bool, allow: string,
                     name: string, r: Record)
    ensures Check(isValidLicense, isSatisfiedLicense, allow, name, r) == Some(UnlicensedMessage(name, r.version))
      <==> Unlicensed(r.licenseName)
    ensures Check(isValidLicense, isSatisfiedLicense, allow, name, r)
        == Some(DisallowedMessage(name, r.version, r.licenseName))
      <==> !Unlicensed(r.licenseName) && Disallowed(isValidLicense, isSatisfiedLicense, allow, r.licenseName)
    ensures Check(isValidLicense, isSatisfiedLicense, allow, name, r) == None
      <==> !Unlicensed(r.licenseName) && !Disallowed(isValidLicense, isSatisfiedLicense, allow, r.licenseName)
  {
    MessagesDiffer(name, r.version, r.licenseName);
  }

  /** Reference definition: the errors for the entries that have a message, in key order. */
  function ViolationsSpec(isValidLicense: Json -> bool, isSatisfiedLicense: (Json, string) -> bool,
                          allow: string, t: Table): (errors: seq<LicenseError>)
  {
    if t == [] then []
    else
      var rest := ViolationsSpec(isValidLicense, isSatisfiedLicense, allow, t[1..]);
      match Check(isValidLicense, isSatisfiedLicense, allow, t[0].key, t[0].record)
      case None => rest
      case Some(detail) => [NewLicenseError(detail)] + rest
  }

  /** `getLicenseViolations`: a fold over `Object.keys(licenseInformation)` that reads each
      entry and pushes its error, if any, onto the accumulator. */
  method GetLicenseViolations(isValidLicense: Json -> bool, isSatisfiedLicense: (Json, string) -> bool,
                              licenseInformation: Table, allow: string)
    returns (memo: seq<LicenseError>)
    requires DistinctKeys(licenseInformation)
    ensures memo == ViolationsSpec(isValidLicense, isSatisfiedLicense, allow, licenseInformation)
  {
    var t := licenseInformation;
    var keys := Keys(t);
    memo := [];
    var i := 0;
    assert t[..0] == [];
    while i < |keys|
      invariant 0 <= i <= |keys|
      invariant memo == ViolationsSpec(isValidLicense, isSatisfiedLicense, allow, t[..i])
    {
      var name := keys[i];
      LookupAt(t, i);
      var r := Lookup(t, name);
      var version, licenseName := r.version, r.licenseName;
      ViolationsSnoc(isValidLicense, isSatisfiedLicense, allow, t, i);
      if !Truthy(licenseName) || licenseName == Str("UNLICENSED") {
        memo := memo + [NewLicenseError(name + "@" + ToString(version) + " is unlicensed")];
      } else if !isValidLicense(licenseName) || !isSatisfiedLicense(licenseName, allow) {
        memo := memo + [NewLicenseError(name + "@" + ToString(version) + " has disallowed license " + ToString(licenseName))];
      }
      i := i + 1;
    }
    assert t[..i] == t;
  }

  lemma {:induction false} ViolationsConcat(isValidLicense: Json -> bool, isSatisfiedLicense: (Json, string) -> bool,
                                            allow: string, a: Table, b: Table)
    ensures ViolationsSpec(isValidLicense, isSatisfiedLicense, allow, a + b)
      == ViolationsSpec(isValidLicense, isSatisfiedLicense, allow, a)
         + ViolationsSpec(isValidLicense, isSatisfiedLicense, allow, b)
  {
    if a == [] {
      assert a + b == b;
    } else {
      assert (a + b)[0] == a[0] && (a + b)[1..] == a[1..] + b;
      ViolationsConcat(isValidLicense, isSatisfiedLicense, allow, a[1..], b);
    }
  }

  lemma ViolationsSnoc(isValidLicense: Json -> bool, isSatisfiedLicense: (Json, string) -> bool,
                       allow: string, t: Table, i: nat)
    requires i < |t|
    ensures ViolationsSpec(isValidLicense, isSatisfiedLicense, allow, t[..i + 1])
      == ViolationsSpec(isValidLicense, isSatisfiedLicense, allow, t[..i])
         + match Check(isValidLicense, isSatisfiedLicense, allow, t[i].key, t[i].record)
           case None => []
           case Some(detail) => [NewLicenseError(detail)]
  {
    assert t[..i + 1] == t[..i] + [t[i]];
    ViolationsConcat(isValidLicense, isSatisfiedLicense, allow, t[..i], [t[i]]);
    assert [t[i]][1..] == [];
  }

  /** The positions of the entries that have a message, in increasing order. */
  function Flagged(isValidLicense: Json -> bool, isSatisfiedLicense: (Json, string) -> bool,
                   allow: string, t: Table): (f: seq<nat>)
  {
    if t == [] then []
    else
      var n := |t| - 1;
      Flagged(isValidLicense, isSatisfiedLicense, allow, t[..n])
      + if Check(isValidLicense, isSatisfiedLicense, allow, t[n].key, t[n].record).Some? then [n] else []
  }

  /** The flagged positions are positions of the table, increase strictly, and are exactly
      those whose entry has a message. */
  lemma {:induction false} FlaggedPositions(isValidLicense: Json -> bool, isSatisfiedLicense: (Json, string) -> bool,
                                            allow: string, t: Table)
    ensures var f := Flagged(isValidLicense, isSatisfiedLicense, allow, t);
      && (forall j :: 0 <= j < |f| ==> f[j] < |t|)
      && (forall j, l :: 0 <= j < l < |f| ==> f[j] < f[l])
      && (forall i :: 0 <= i < |t| ==>
            (i in f <==> Check(isValidLicense, isSatisfiedLicense, allow, t[i].key, t[i].record).Some?))
  {
    if t != [] {
      var n := |t| - 1;
      var front := t[..n];
      FlaggedPositions(isValidLicense, isSatisfiedLicense, allow, front);
      var f' := Flagged(isValidLicense, isSatisfiedLicense, allow, front);
      var f := Flagged(isValidLicense, isSatisfiedLicense, allow, t);
      assert forall i :: 0 <= i < n ==> front[i] == t[i];
      if Check(isValidLicense, isSatisfiedLicense, allow, t[n].key, t[n].record).Some? {
        assert f == f' + [n];
        assert forall j :: 0 <= j < |f'| ==> f[j] == f'[j];
      } else {
        assert f == f';
      }
    }
  }

  /** At most one error per entry, in key order: there are as many errors as flagged
      entries, and the `j`-th error is the message of the `j`-th flagged entry. */
  lemma {:induction false} ViolationsInKeyOrder(isValidLicense: Json -> bool, isSatisfiedLicense: (Json, string) -> bool,
                                                allow: string, t: Table)
    ensures var v := ViolationsSpec(isValidLicense, isSatisfiedLicense, allow, t);
      var f := Flagged(isValidLicense, isSatisfiedLicense, allow, t);
      && |v| == |f|
      && forall j :: 0 <= j < |f| ==> (f[j] < |t|
           && Check(isValidLicense, isSatisfiedLicense, allow, t[f[j]].key, t[f[j]].record).Some?
           && v[j] == NewLicenseError(Check(isValidLicense, isSatisfiedLicense, allow, t[f[j]].key, t[f[j]].record).value))
  {
    if t != [] {
      var n := |t| - 1;
      var front := t[..n];
      ViolationsInKeyOrder(isValidLicense, isSatisfiedLicense, allow, front);
      ViolationsSnoc(isValidLicense, isSatisfiedLicense, allow, t, n);
      assert t[..n + 1] == t;
      var v' := ViolationsSpec(isValidLicense, isSatisfiedLicense, allow, front);
      var f' := Flagged(isValidLicense, isSatisfiedLicense, allow, front);
      var v := ViolationsSpec(isValidLicense, isSatisfiedLicense, allow, t);
      var f := Flagged(isValidLicense, isSatisfiedLicense, allow, t);
      assert forall j :: 0 <= j < |f'| ==> front[f'[j]] == t[f'[j]];
      var c := Check(isValidLicense, isSatisfiedLicense, allow, t[n].key, t[n].record);
      if c.Some? {
        assert f == f' + [n];
        assert v == v' + [NewLicenseError(c.value)];
        assert forall j :: 0 <= j < |f'| ==> f[j] == f'[j] && v[j] == v'[j];
      } else {
        assert f == f' && v == v';
      }
    }
  }
}
