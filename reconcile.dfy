/** The two policy passes: `ignoreLicenses` drops the dependencies an ignore rule matches,
    `overrideLicenses` patches the records an override rule matches. Both work on a deep
    copy of their input table and match rules against the version in the input table. */
module Reconcile {
  import opened Wrappers
  import opened JsValue
  import opened Records
  import opened Tables
  import opened VersionExpression

  /** The table as `JSON.parse(JSON.stringify(t))` leaves it. */
  function CopyTable(t: Table): (u: Table)
    ensures |u| == |t|
    ensures forall i :: 0 <= i < |t| ==> u[i] == Entry(t[i].key, CopyRecord(t[i].record))
  {
    if t == [] then []
    else
      var rest := CopyTable(t[1..]);
      assert forall i :: 1 <= i < |t| ==> t[i] == t[1..][i - 1];
      [Entry(t[0].key, CopyRecord(t[0].record))] + rest
  }

  // =======================================================================================
  // Ignore

  /** One ignore rule against one dependency: the glob (`satisfiesGlob(name, pattern)`)
      on the table key, and the version condition on the dependency's version. */
  predicate IgnoreRuleMatches(glob: (string, string) -> bool, satisfies: (Json, string) -> bool,
                              dependencyName: string, dependencyVersion: Json, ignoredExpression: string)
  {
    glob(dependencyName, RuleName(ignoredExpression))
    && VersionMatches(satisfies, dependencyVersion, RuleRange(ignoredExpression))
  }

  /** The ignore rule test for one dependency, as a function of the rule expression. */
  function IgnoreMatcher(glob: (string, string) -> bool, satisfies: (Json, string) -> bool,
                         dependencyName: string, dependencyVersion: Json): (matches: string -> bool)
  {
    ignoredExpression => IgnoreRuleMatches(glob, satisfies, dependencyName, dependencyVersion, ignoredExpression)
  }

  /** Some rule of `ignore` passes the test `matches`. */
  predicate Ignored(matches: string -> bool, ignore: seq<string>) {
    ignore != [] && (Ignored(matches, ignore[..|ignore| - 1]) || matches(ignore[|ignore| - 1]))
  }

  lemma {:induction false} IgnoredMeansSomeMatch(matches: string -> bool, ignore: seq<string>)
    ensures Ignored(matches, ignore) <==> exists j :: 0 <= j < |ignore| && matches(ignore[j])
  {
    if ignore != [] {
      var n := |ignore| - 1;
      var front := ignore[..n];
      IgnoredMeansSomeMatch(matches, front);
      assert forall j :: 0 <= j < n ==> front[j] == ignore[j];
    }
  }

  /** A dependency is ignored exactly when some rule of the list matches it. */
  lemma IgnoredMeansSomeRuleMatches(glob: (string, string) -> bool, satisfies: (Json, string) -> bool,
                                    dependencyName: string, dependencyVersion: Json, ignore: seq<string>)
    ensures Ignored(IgnoreMatcher(glob, satisfies, dependencyName, dependencyVersion), ignore) <==>
      exists j :: 0 <= j < |ignore| && IgnoreRuleMatches(glob, satisfies, dependencyName, dependencyVersion, ignore[j])
  {
    var matches := IgnoreMatcher(glob, satisfies, dependencyName, dependencyVersion);
    IgnoredMeansSomeMatch(matches, ignore);
    assert forall j :: 0 <= j < |ignore| ==>
      (matches(ignore[j]) <==> IgnoreRuleMatches(glob, satisfies, dependencyName, dependencyVersion, ignore[j]));
  }

  /** What the ignore pass does to one entry. */
  function IgnoreEntry(glob: (string, string) -> bool, satisfies: (Json, string) -> bool,
                       ignore: seq<string>, e: Entry): (u: Table)
  {
    if Ignored(IgnoreMatcher(glob, satisfies, e.key, e.record.version), ignore) then []
    else [Entry(e.key, CopyRecord(e.record))]
  }

  /** Reference definition of the ignore pass: keep, in order and as copies, exactly the
      entries that no ignore rule matches. */
  function IgnoreSpec(glob: (string, string) -> bool, satisfies: (Json, string) -> bool,
                      t: Table, ignore: seq<string>): (u: Table)
  {
    if t == [] then []
    else IgnoreEntry(glob, satisfies, ignore, t[0]) + IgnoreSpec(glob, satisfies, t[1..], ignore)
  }

  /** The inner fold of `ignoreLicenses` for one dependency: every ignore rule is tried
      in turn against the key and the version the input table records for it, and the key
      is deleted from `memo` whenever one matches. */
  method IgnoreDependency(glob: (string, string) -> bool, satisfies: (Json, string) -> bool,
                          licenseInformation: Table, dependencyName: string, memo0: Table, ignore: seq<string>)
    returns (memo: Table)
    requires dependencyName in Keys(licenseInformation)
    ensures memo == if Ignored(IgnoreMatcher(glob, satisfies, dependencyName, Lookup(licenseInformation, dependencyName).version), ignore)
      then Remove(memo0, dependencyName) else memo0
  {
    memo := memo0;
    ghost var v := Lookup(licenseInformation, dependencyName).version;
    var j := 0;
    while j < |ignore|
      invariant 0 <= j <= |ignore|
      invariant memo == if Ignored(IgnoreMatcher(glob, satisfies, dependencyName, v), ignore[..j])
        then Remove(memo0, dependencyName) else memo0
    {
      var dependencyVersion := Lookup(licenseInformation, dependencyName).version;
      var parts := ParseVersionExpression(ignore[j]);
      var ignoredName := parts[0];
      var ignoredVersionRange := if |parts| >= 2 then Some(parts[1]) else None;
      var matchesName := glob(dependencyName, ignoredName);
      var matchesVersion := VersionMatches(satisfies, dependencyVersion, ignoredVersionRange);
      IgnoredStep(IgnoreMatcher(glob, satisfies, dependencyName, v), ignore, j);
      if matchesName && matchesVersion {
        RemoveTwice(memo0, dependencyName);
        memo := Remove(memo, dependencyName);
      }
      j := j + 1;
    }
    assert ignore[..j] == ignore;
  }

  /** `ignoreLicenses`: a fold over the table's keys, and for each key the fold over the
      ignore rules, deleting from a deep copy of the table. */
  method IgnoreLicenses(glob: (string, string) -> bool, satisfies: (Json, string) -> bool,
                        licenseInformation: Table, ignore: seq<string>)
    returns (memo: Table)
    requires DistinctKeys(licenseInformation)
    ensures memo == IgnoreSpec(glob, satisfies, licenseInformation, ignore)
  {
    var t := licenseInformation;
    memo := CopyTable(t);
    var i := 0;
    assert t[i..] == t;
    while i < |t|
      invariant 0 <= i <= |t|
      invariant memo == IgnoreSpec(glob, satisfies, t[..i], ignore) + CopyTable(t[i..])
    {
      var dependencyName := t[i].key;
      LookupAt(t, i);
      memo := IgnoreDependency(glob, satisfies, t, dependencyName, memo, ignore);
      IgnoreStepResult(glob, satisfies, t, i, ignore);
      i := i + 1;
    }
    assert t[..i] == t;
  }

  /** One step of the outer fold: the inner fold for entry `i` turns the table that holds
      the result for the first `i` entries followed by the copies of the others into the
      one for the first `i + 1` entries. */
  lemma IgnoreStepResult(glob: (string, string) -> bool, satisfies: (Json, string) -> bool,
                         t: Table, i: nat, ignore: seq<string>)
    requires DistinctKeys(t) && i < |t|
    ensures var memo := IgnoreSpec(glob, satisfies, t[..i], ignore) + CopyTable(t[i..]);
      (if Ignored(IgnoreMatcher(glob, satisfies, t[i].key, t[i].record.version), ignore) then Remove(memo, t[i].key) else memo)
      == IgnoreSpec(glob, satisfies, t[..i + 1], ignore) + CopyTable(t[i + 1..])
  {
    var k := t[i].key;
    var done := IgnoreSpec(glob, satisfies, t[..i], ignore);
    var copied := Entry(k, CopyRecord(t[i].record));
    var rest := CopyTable(t[i + 1..]);
    CopyTableSplit(t, i);
    assert done + CopyTable(t[i..]) == done + [copied] + rest;
    IgnoreSpecSnoc(glob, satisfies, t, i, ignore);
    if Ignored(IgnoreMatcher(glob, satisfies, k, t[i].record.version), ignore) {
      IgnoreStepDrop(glob, satisfies, t, i, ignore);
      assert IgnoreEntry(glob, satisfies, ignore, t[i]) == [];
      assert done + [] == done;
    } else {
      assert IgnoreEntry(glob, satisfies, ignore, t[i]) == [copied];
    }
  }

  /** The step for an ignored entry: deleting its key drops just its copy. */
  lemma IgnoreStepDrop(glob: (string, string) -> bool, satisfies: (Json, string) -> bool,
                       t: Table, i: nat, ignore: seq<string>)
    requires DistinctKeys(t) && i < |t|
    ensures var done := IgnoreSpec(glob, satisfies, t[..i], ignore);
      var rest := CopyTable(t[i + 1..]);
      Remove(done + [Entry(t[i].key, CopyRecord(t[i].record))] + rest, t[i].key) == done + rest
  {
    var k := t[i].key;
    var done := IgnoreSpec(glob, satisfies, t[..i], ignore);
    var rest := CopyTable(t[i + 1..]);
    IgnoreSpecNoKey(glob, satisfies, t, i, ignore);
    CopyTableNoKey(t, i);
    RemoveAbsent(rest, k);
    RemoveSkipping(done, [Entry(k, CopyRecord(t[i].record))], rest, k);
  }

  /** The copies of the entries from `i` on: the copy of entry `i`, then the others. */
  lemma CopyTableSplit(t: Table, i: nat)
    requires i < |t|
    ensures CopyTable(t[i..]) == [Entry(t[i].key, CopyRecord(t[i].record))] + CopyTable(t[i + 1..])
  {
    assert t[i..][1..] == t[i + 1..];
  }

  /** In a table with distinct keys, no copy of an entry after entry `i` has its key. */
  lemma CopyTableNoKey(t: Table, i: nat)
    requires DistinctKeys(t) && i < |t|
    ensures var rest := CopyTable(t[i + 1..]);
      forall p :: 0 <= p < |rest| ==> rest[p].key != t[i].key
  {
    var after := t[i + 1..];
    assert forall p :: 0 <= p < |after| ==> after[p] == t[i + 1 + p];
  }

  lemma IgnoredStep(matches: string -> bool, ignore: seq<string>, j: nat)
    requires j < |ignore|
    ensures Ignored(matches, ignore[..j + 1]) <==> Ignored(matches, ignore[..j]) || matches(ignore[j])
  {
    assert ignore[..j + 1][..j] == ignore[..j];
  }

  /** `delete` of a key that occurs only in the middle part. */
  lemma RemoveSkipping(a: Table, mid: Table, b: Table, k: string)
    requires forall p :: 0 <= p < |a| ==> a[p].key != k
    requires Remove(b, k) == b
    requires |mid| <= 1 && (|mid| == 1 ==> mid[0].key == k)
    ensures Remove(a + mid + b, k) == a + b
  {
    RemoveConcat(a + mid, b, k);
    RemoveConcat(a, mid, k);
    RemoveAbsent(a, k);
    if |mid| == 1 {
      assert Remove(mid, k) == Remove(mid[1..], k) == Remove([], k);
    }
    assert Remove(mid, k) == [];
    assert a + [] == a;
  }

  /** In a table with distinct keys, the entries the ignore pass keeps from before entry
      `i` do not carry entry `i`'s key. */
  lemma IgnoreSpecNoKey(glob: (string, string) -> bool, satisfies: (Json, string) -> bool,
                        t: Table, i: nat, ignore: seq<string>)
    requires DistinctKeys(t) && i < |t|
    ensures forall p :: 0 <= p < |IgnoreSpec(glob, satisfies, t[..i], ignore)| ==>
      IgnoreSpec(glob, satisfies, t[..i], ignore)[p].key != t[i].key
  {
    IgnoreSpecEntries(glob, satisfies, t[..i], ignore);
  }

  lemma {:induction false} IgnoreSpecConcat(glob: (string, string) -> bool, satisfies: (Json, string) -> bool,
                                            a: Table, b: Table, ignore: seq<string>)
    ensures IgnoreSpec(glob, satisfies, a + b, ignore)
      == IgnoreSpec(glob, satisfies, a, ignore) + IgnoreSpec(glob, satisfies, b, ignore)
  {
    if a == [] {
      assert a + b == b;
    } else {
      assert (a + b)[1..] == a[1..] + b;
      IgnoreSpecConcat(glob, satisfies, a[1..], b, ignore);
    }
  }

  lemma IgnoreSpecSnoc(glob: (string, string) -> bool, satisfies: (Json, string) -> bool,
                       t: Table, i: nat, ignore: seq<string>)
    requires i < |t|
    ensures IgnoreSpec(glob, satisfies, t[..i + 1], ignore)
      == IgnoreSpec(glob, satisfies, t[..i], ignore) + IgnoreEntry(glob, satisfies, ignore, t[i])
  {
    assert t[..i + 1] == t[..i] + [t[i]];
    IgnoreSpecConcat(glob, satisfies, t[..i], [t[i]], ignore);
    assert [t[i]][1..] == [];
  }

  /** The keys that survive are exactly the input keys whose entry no rule matches. */
  lemma {:induction false} IgnoreSpecKeys(glob: (string, string) -> bool, satisfies: (Json, string) -> bool,
                                          t: Table, ignore: seq<string>, k: string)
    ensures k in Keys(IgnoreSpec(glob, satisfies, t, ignore)) <==>
      exists i :: 0 <= i < |t| && t[i].key == k && !Ignored(IgnoreMatcher(glob, satisfies, k, t[i].record.version), ignore)
  {
    if t != [] {
      IgnoreSpecKeys(glob, satisfies, t[1..], ignore, k);
      var head := IgnoreEntry(glob, satisfies, ignore, t[0]);
      var tail := IgnoreSpec(glob, satisfies, t[1..], ignore);
      KeysConcat(head, tail);
      assert forall i :: 1 <= i < |t| ==> t[i] == t[1..][i - 1];
      if exists i :: 0 <= i < |t| && t[i].key == k && !Ignored(IgnoreMatcher(glob, satisfies, k, t[i].record.version), ignore) {
        var i :| 0 <= i < |t| && t[i].key == k && !Ignored(IgnoreMatcher(glob, satisfies, k, t[i].record.version), ignore);
        if i == 0 {
          assert Keys(head) == [k];
        } else {
          assert t[1..][i - 1] == t[i];
        }
      }
    }
  }

  lemma KeysConcat(a: Table, b: Table)
    ensures Keys(a + b) == Keys(a) + Keys(b)
  {
    var u, v := Keys(a + b), Keys(a) + Keys(b);
    assert |u| == |v|;
    forall p | 0 <= p < |u| ensures u[p] == v[p] {
      if p < |a| {
        assert (a + b)[p] == a[p];
      } else {
        assert (a + b)[p] == b[p - |a|];
      }
    }
  }

  /** In a table with distinct keys, every entry carrying a key holds the record `Lookup`
      reads for it. */
  lemma LookupUnique(t: Table, k: string)
    requires DistinctKeys(t)
    ensures forall i :: 0 <= i < |t| && t[i].key == k ==> k in Keys(t) && t[i].record == Lookup(t, k)
  {
    forall i | 0 <= i < |t| && t[i].key == k ensures k in Keys(t) && t[i].record == Lookup(t, k) {
      LookupAt(t, i);
    }
  }

  /** Ignore result, keys: exactly the input keys that no ignore rule matches, the glob
      tried on the key and the range on the version the input table records. */
  lemma IgnoreLicensesKeys(glob: (string, string) -> bool, satisfies: (Json, string) -> bool,
                           t: Table, ignore: seq<string>, k: string)
    requires DistinctKeys(t)
    ensures k in Keys(IgnoreSpec(glob, satisfies, t, ignore)) <==>
      k in Keys(t) && !Ignored(IgnoreMatcher(glob, satisfies, k, Lookup(t, k).version), ignore)
  {
    IgnoreSpecKeys(glob, satisfies, t, ignore, k);
    LookupUnique(t, k);
    if k in Keys(t) {
      var i :| 0 <= i < |t| && t[i] == Entry(k, Lookup(t, k));
    }
  }

  /** Ignore result, records: each surviving key holds the deep copy of its input record. */
  lemma IgnoreLicensesRecords(glob: (string, string) -> bool, satisfies: (Json, string) -> bool,
                              t: Table, ignore: seq<string>, k: string)
    requires DistinctKeys(t)
    requires k in Keys(IgnoreSpec(glob, satisfies, t, ignore))
    ensures k in Keys(t) && Lookup(IgnoreSpec(glob, satisfies, t, ignore), k) == CopyRecord(Lookup(t, k))
  {
    var u := IgnoreSpec(glob, satisfies, t, ignore);
    IgnoreSpecEntries(glob, satisfies, t, ignore);
    var p :| 0 <= p < |u| && u[p] == Entry(k, Lookup(u, k));
    var i :| 0 <= i < |t| && u[p] == Entry(t[i].key, CopyRecord(t[i].record));
    LookupAt(t, i);
  }

  /** On a table whose records came from JSON, the surviving records are the input records
      themselves. */
  lemma IgnoreLicensesCleanRecords(glob: (string, string) -> bool, satisfies: (Json, string) -> bool,
                                   t: Table, ignore: seq<string>, k: string)
    requires DistinctKeys(t) && CleanTable(t)
    requires k in Keys(IgnoreSpec(glob, satisfies, t, ignore))
    ensures k in Keys(t) && Lookup(IgnoreSpec(glob, satisfies, t, ignore), k) == Lookup(t, k)
  {
    IgnoreLicensesRecords(glob, satisfies, t, ignore, k);
    var i :| 0 <= i < |t| && t[i] == Entry(k, Lookup(t, k));
    CopyRecordOfClean(t[i].record);
  }

  /** Every entry of `u` is the deep copy of some entry of `t`. */
  predicate CopiesOf(u: Table, t: Table) {
    forall p :: 0 <= p < |u| ==> exists i :: 0 <= i < |t| && u[p] == Entry(t[i].key, CopyRecord(t[i].record))
  }

  /** Every entry of the result is the copy of an input entry. */
  lemma {:induction false} IgnoreSpecEntries(glob: (string, string) -> bool, satisfies: (Json, string) -> bool,
                                             t: Table, ignore: seq<string>)
    ensures CopiesOf(IgnoreSpec(glob, satisfies, t, ignore), t)
  {
    if t != [] {
      var head := IgnoreEntry(glob, satisfies, ignore, t[0]);
      var tail := IgnoreSpec(glob, satisfies, t[1..], ignore);
      IgnoreSpecEntries(glob, satisfies, t[1..], ignore);
      assert CopiesOf(tail, t[1..]);
      var u := head + tail;
      forall p | 0 <= p < |u|
        ensures exists i :: 0 <= i < |t| && u[p] == Entry(t[i].key, CopyRecord(t[i].record))
      {
        if p < |head| {
          assert u[p] == Entry(t[0].key, CopyRecord(t[0].record));
        } else {
          var q := p - |head|;
          assert 0 <= q < |tail| && u[p] == tail[q];
          var i :| 0 <= i < |t[1..]| && tail[q] == Entry(t[1..][i].key, CopyRecord(t[1..][i].record));
          assert t[1..][i] == t[i + 1];
        }
      }
      assert CopiesOf(u, t);
    }
  }

  /** The ignore pass keeps the keys of a table distinct: it only drops entries. */
  lemma {:induction false} IgnoreSpecDistinct(glob: (string, string) -> bool, satisfies: (Json, string) -> bool,
                                              t: Table, ignore: seq<string>)
    requires DistinctKeys(t)
    ensures DistinctKeys(IgnoreSpec(glob, satisfies, t, ignore))
  {
    if t != [] {
      var rest := t[1..];
      var head := IgnoreEntry(glob, satisfies, ignore, t[0]);
      var tail := IgnoreSpec(glob, satisfies, rest, ignore);
      assert forall i :: 0 <= i < |rest| ==> rest[i] == t[i + 1];
      IgnoreSpecDistinct(glob, satisfies, rest, ignore);
      IgnoreSpecEntries(glob, satisfies, rest, ignore);
      forall q | 0 <= q < |tail| ensures tail[q].key != t[0].key {
        var i :| 0 <= i < |rest| && tail[q] == Entry(rest[i].key, CopyRecord(rest[i].record));
      }
      var u := head + tail;
      forall p, q | 0 <= p < q < |u| ensures u[p].key != u[q].key {
        assert u[q] == tail[q - |head|];
        if p < |head| {
          assert u[p] == head[0] && head[0].key == t[0].key;
        } else {
          assert u[p] == tail[p - |head|];
        }
      }
    }
  }

  /** Ignoring twice with the same rules is ignoring once, on a table whose records came
      from JSON. */
  lemma {:induction false} IgnoreIdempotent(glob: (string, string) -> bool, satisfies: (Json, string) -> bool,
                                            t: Table, ignore: seq<string>)
    requires CleanTable(t)
    ensures IgnoreSpec(glob, satisfies, IgnoreSpec(glob, satisfies, t, ignore), ignore)
      == IgnoreSpec(glob, satisfies, t, ignore)
  {
    if t != [] {
      var head := IgnoreEntry(glob, satisfies, ignore, t[0]);
      var tail := IgnoreSpec(glob, satisfies, t[1..], ignore);
      assert CleanTable(t[1..]) by {
        assert forall i :: 0 <= i < |t[1..]| ==> t[1..][i] == t[i + 1];
      }
      IgnoreIdempotent(glob, satisfies, t[1..], ignore);
      IgnoreSpecConcat(glob, satisfies, head, tail, ignore);
      CopyRecordOfClean(t[0].record);
      if head != [] {
        assert IgnoreSpec(glob, satisfies, head, ignore) == IgnoreEntry(glob, satisfies, ignore, head[0]) + IgnoreSpec(glob, satisfies, [], ignore);
      }
    }
  }

  // =======================================================================================
  // Override

  /** One entry of the `override` object: a rule key and its patch, in the object's key
      order. */
  datatype OverrideRule = OverrideRule(key: string, patch: Patch)

  /** One override rule against one dependency: the rule's name part must equal the table
      key exactly, and the version condition must hold of the dependency's version. */
  predicate OverrideRuleMatches(satisfies: (Json, string) -> bool,
                                dependencyName: string, dependencyVersion: Json, overriddenKey: string)
  {
    dependencyName == RuleName(overriddenKey)
    && VersionMatches(satisfies, dependencyVersion, RuleRange(overriddenKey))
  }

  /** The rule test for one dependency, as a function of the rule key. */
  function RuleMatcher(satisfies: (Json, string) -> bool, dependencyName: string, dependencyVersion: Json): (matches: string -> bool) {
    overriddenKey => OverrideRuleMatches(satisfies, dependencyName, dependencyVersion, overriddenKey)
  }

  /** One override rule applied to a dependency's record: `Object.assign` of the rule's
      patch when the rule matches. */
  function ApplyRule(matches: string -> bool, r: Record, rule: OverrideRule): (q: Record) {
    if matches(rule.key) then Assign(r, rule.patch) else r
  }

  /** The record after the patches of the rules of `override`, in order, for the
      dependency that `matches` tests rule keys against. */
  function ApplyOverrides(matches: string -> bool, r: Record, override: seq<OverrideRule>): (q: Record) {
    if override == [] then r
    else ApplyRule(matches, ApplyOverrides(matches, r, override[..|override| - 1]), override[|override| - 1])
  }

  /** Reference definition of the override pass: every entry keeps its key and place; its
      record is the copy of the input record with the matching patches applied. */
  function OverrideSpec(satisfies: (Json, string) -> bool, t: Table, override: seq<OverrideRule>): (u: Table)
    ensures |u| == |t|
    ensures forall i :: 0 <= i < |t| ==> u[i] == Entry(t[i].key,
      ApplyOverrides(RuleMatcher(satisfies, t[i].key, t[i].record.version), CopyRecord(t[i].record), override))
  {
    seq(|t|, i requires 0 <= i < |t| =>
      Entry(t[i].key, ApplyOverrides(RuleMatcher(satisfies, t[i].key, t[i].record.version), CopyRecord(t[i].record), override)))
  }

  /** The inner fold of `overrideLicenses` for one dependency: every override key is tried
      in turn against the key and the version the input table records for it, and the
      patch of each match is `Object.assign`-ed into the dependency's record in `memo`. */
  method OverrideDependency(satisfies: (Json, string) -> bool, licenseInformation: Table,
                            dependencyName: string, memo0: Table, override: seq<OverrideRule>)
    returns (memo: Table)
    requires dependencyName in Keys(licenseInformation)
    requires DistinctKeys(memo0) && dependencyName in Keys(memo0)
    ensures memo == Put(memo0, dependencyName, ApplyOverrides(
      RuleMatcher(satisfies, dependencyName, Lookup(licenseInformation, dependencyName).version),
      Lookup(memo0, dependencyName), override))
  {
    memo := memo0;
    ghost var v := Lookup(licenseInformation, dependencyName).version;
    ghost var r0 := Lookup(memo0, dependencyName);
    PutLookup(memo0, dependencyName);
    assert override[..0] == [];
    var j := 0;
    while j < |override|
      invariant 0 <= j <= |override|
      invariant memo == Put(memo0, dependencyName, ApplyOverrides(RuleMatcher(satisfies, dependencyName, v), r0, override[..j]))
    {
      var dependencyVersion := Lookup(licenseInformation, dependencyName).version;
      var overriddenKey := override[j].key;
      var parts := ParseVersionExpression(overriddenKey);
      var overriddenName := parts[0];
      var overriddenVersionRange := if |parts| >= 2 then Some(parts[1]) else None;
      var matchesName := dependencyName == overriddenName;
      var matchesVersion := VersionMatches(satisfies, dependencyVersion, overriddenVersionRange);
      assert overriddenName == RuleName(overriddenKey) && overriddenVersionRange == RuleRange(overriddenKey);
      ghost var matched := RuleMatcher(satisfies, dependencyName, v)(overriddenKey);
      assert matchesName && matchesVersion <==> matched;
      OverrideDependencyStep(satisfies, memo0, dependencyName, v, r0, override, j);
      if matchesName && matchesVersion {
        memo := Put(memo, dependencyName, Assign(Lookup(memo, dependencyName), override[j].patch));
      }
      j := j + 1;
    }
    assert override[..j] == override;
  }

  /** One step of the inner fold: trying override rule `j` on the record that holds the
      patches of the rules before it gives the record with the patches up to rule `j`. */
  lemma OverrideDependencyStep(satisfies: (Json, string) -> bool, memo0: Table, k: string, v: Json, r0: Record,
                               override: seq<OverrideRule>, j: nat)
    requires DistinctKeys(memo0) && k in Keys(memo0) && j < |override|
    ensures var memo := Put(memo0, k, ApplyOverrides(RuleMatcher(satisfies, k, v), r0, override[..j]));
      var next := Put(memo0, k, ApplyOverrides(RuleMatcher(satisfies, k, v), r0, override[..j + 1]));
      && k in Keys(memo)
      && (RuleMatcher(satisfies, k, v)(override[j].key) ==> Put(memo, k, Assign(Lookup(memo, k), override[j].patch)) == next)
      && (!RuleMatcher(satisfies, k, v)(override[j].key) ==> memo == next)
  {
    var before := ApplyOverrides(RuleMatcher(satisfies, k, v), r0, override[..j]);
    assert override[..j + 1][..j] == override[..j] && override[..j + 1][j] == override[j];
    assert ApplyOverrides(RuleMatcher(satisfies, k, v), r0, override[..j + 1]) == ApplyRule(RuleMatcher(satisfies, k, v), before, override[j]);
    LookupPut(memo0, k, before);
    PutPut(memo0, k, before, Assign(before, override[j].patch));
  }

  /** `overrideLicenses`: a fold over the table's keys, and for each key the fold over the
      override keys, patching a deep copy of the table. */
  method OverrideLicenses(satisfies: (Json, string) -> bool, licenseInformation: Table, override: seq<OverrideRule>)
    returns (memo: Table)
    requires DistinctKeys(licenseInformation)
    ensures memo == OverrideSpec(satisfies, licenseInformation, override)
  {
    var t := licenseInformation;
    memo := CopyTable(t);
    var i := 0;
    assert memo == OverridePartial(satisfies, t, override, 0);
    while i < |t|
      invariant 0 <= i <= |t|
      invariant memo == OverridePartial(satisfies, t, override, i)
    {
      var dependencyName := t[i].key;
      LookupAt(t, i);
      OverrideStepResult(satisfies, t, i, override);
      memo := OverrideDependency(satisfies, t, dependencyName, memo, override);
      i := i + 1;
    }
    assert memo == OverrideSpec(satisfies, t, override);
  }

  /** The accumulator of the outer fold after `i` steps: the first `i` entries patched,
      the others still the plain deep copies. */
  function OverridePartial(satisfies: (Json, string) -> bool, t: Table, override: seq<OverrideRule>, i: nat): (u: Table)
    requires i <= |t|
    ensures |u| == |t|
    ensures forall p :: 0 <= p < |t| ==> u[p] == if p < i
      then Entry(t[p].key, ApplyOverrides(RuleMatcher(satisfies, t[p].key, t[p].record.version), CopyRecord(t[p].record), override))
      else Entry(t[p].key, CopyRecord(t[p].record))
  {
    seq(|t|, p requires 0 <= p < |t| => if p < i
      then Entry(t[p].key, ApplyOverrides(RuleMatcher(satisfies, t[p].key, t[p].record.version), CopyRecord(t[p].record), override))
      else Entry(t[p].key, CopyRecord(t[p].record)))
  }

  /** One step of the outer fold: in the accumulator, entry `i`'s key reads its copied
      record, and writing back the patched record gives the accumulator after step `i`. */
  lemma OverrideStepResult(satisfies: (Json, string) -> bool, t: Table, i: nat, override: seq<OverrideRule>)
    requires DistinctKeys(t) && i < |t|
    ensures var memo := OverridePartial(satisfies, t, override, i);
      && DistinctKeys(memo) && t[i].key in Keys(memo) && Lookup(memo, t[i].key) == CopyRecord(t[i].record)
      && Put(memo, t[i].key, ApplyOverrides(RuleMatcher(satisfies, t[i].key, t[i].record.version), CopyRecord(t[i].record), override))
         == OverridePartial(satisfies, t, override, i + 1)
  {
    var k := t[i].key;
    var memo := OverridePartial(satisfies, t, override, i);
    var r := ApplyOverrides(RuleMatcher(satisfies, k, t[i].record.version), CopyRecord(t[i].record), override);
    SameKeysDistinct(t, memo);
    LookupAt(memo, i);
    var u := Put(memo, k, r);
    var w := OverridePartial(satisfies, t, override, i + 1);
    forall p | 0 <= p < |t| ensures u[p] == w[p] {
      if p != i {
        assert t[p].key != k;
      }
    }
  }

  lemma SameKeysDistinct(t: Table, u: Table)
    requires DistinctKeys(t) && |u| == |t|
    requires forall p :: 0 <= p < |t| ==> u[p].key == t[p].key
    ensures DistinctKeys(u)
  {
  }

  /** A rule that matches the dependency and whose patch sets field `f`. */
  predicate SetsField(matches: string -> bool, rule: OverrideRule, f: Field) {
    matches(rule.key) && PatchField(rule.patch, f).Some?
  }

  /** A rule sets field `f` to its patch's value when it matches and the patch has `f`,
      and leaves the field alone otherwise. */
  lemma ApplyRuleField(matches: string -> bool, r: Record, rule: OverrideRule, f: Field)
    ensures FieldOf(ApplyRule(matches, r, rule), f)
      == if SetsField(matches, rule, f) then PatchField(rule.patch, f).value
         else FieldOf(r, f)
  {
  }

  /** A field that no matching rule sets keeps its value. */
  lemma {:induction false} ApplyOverridesUnset(matches: string -> bool, r: Record, override: seq<OverrideRule>, f: Field)
    requires forall j :: 0 <= j < |override| ==> !SetsField(matches, override[j], f)
    ensures FieldOf(ApplyOverrides(matches, r, override), f) == FieldOf(r, f)
  {
    if override != [] {
      var n := |override| - 1;
      var front := override[..n];
      assert forall j :: 0 <= j < n ==> front[j] == override[j];
      ApplyOverridesUnset(matches, r, front, f);
      ApplyRuleField(matches, ApplyOverrides(matches, r, front), override[n], f);
    }
  }

  /** A field takes the value of the last matching rule that sets it: later patches that
      leave it out do not change it. */
  lemma {:induction false} ApplyOverridesLastSetter(matches: string -> bool, r: Record, override: seq<OverrideRule>,
                                                    f: Field, j: nat)
    requires j < |override| && SetsField(matches, override[j], f)
    requires forall q :: j < q < |override| ==> !SetsField(matches, override[q], f)
    ensures FieldOf(ApplyOverrides(matches, r, override), f)
      == PatchField(override[j].patch, f).value
  {
    var n := |override| - 1;
    var front := override[..n];
    var prev := ApplyOverrides(matches, r, front);
    assert ApplyOverrides(matches, r, override)
      == ApplyRule(matches, prev, override[n]);
    ApplyRuleField(matches, prev, override[n], f);
    if j < n {
      assert !SetsField(matches, override[n], f);
      assert front[j] == override[j];
      assert forall q :: j < q < n ==> front[q] == override[q];
      ApplyOverridesLastSetter(matches, r, front, f, j);
    }
  }

  /** Override result, keys: the keys and their order are those of the input table. */
  lemma OverrideLicensesKeys(satisfies: (Json, string) -> bool, t: Table, override: seq<OverrideRule>)
    ensures Keys(OverrideSpec(satisfies, t, override)) == Keys(t)
  {
  }

  /** The override pass keeps the keys of a table distinct: it keeps every key in place. */
  lemma OverrideSpecDistinct(satisfies: (Json, string) -> bool, t: Table, override: seq<OverrideRule>)
    requires DistinctKeys(t)
    ensures DistinctKeys(OverrideSpec(satisfies, t, override))
  {
  }

  /** Override result, a field no matching rule sets: it keeps the (copied) input value.
      Matching uses the key and the version of the input table. */
  lemma OverrideLicensesUnset(satisfies: (Json, string) -> bool, t: Table, override: seq<OverrideRule>, i: nat, f: Field)
    requires i < |t|
    requires forall j :: 0 <= j < |override| ==> !SetsField(RuleMatcher(satisfies, t[i].key, t[i].record.version), override[j], f)
    ensures FieldOf(OverrideSpec(satisfies, t, override)[i].record, f) == FieldOf(CopyRecord(t[i].record), f)
  {
    ApplyOverridesUnset(RuleMatcher(satisfies, t[i].key, t[i].record.version), CopyRecord(t[i].record), override, f);
  }

  /** Override result, a field some matching rule sets: it holds the value of the last such
      rule, even when that rule's patch sets `version` (matching keeps using the input
      table's version). */
  lemma OverrideLicensesLastSetter(satisfies: (Json, string) -> bool, t: Table, override: seq<OverrideRule>,
                                   i: nat, f: Field, j: nat)
    requires i < |t| && j < |override|
    requires SetsField(RuleMatcher(satisfies, t[i].key, t[i].record.version), override[j], f)
    requires forall q :: j < q < |override| ==> !SetsField(RuleMatcher(satisfies, t[i].key, t[i].record.version), override[q], f)
    ensures FieldOf(OverrideSpec(satisfies, t, override)[i].record, f) == PatchField(override[j].patch, f).value
  {
    ApplyOverridesLastSetter(RuleMatcher(satisfies, t[i].key, t[i].record.version), CopyRecord(t[i].record), override, f, j);
  }
}
