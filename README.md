# License policy core of license-checker-webpack-plugin, in Dafny

This project models the policy core of the webpack plugin that checks the licenses of
bundled third-party packages. The core lives in `src/licenseUtils.js`. Given the file paths
of a compilation, it:

- finds the packages they belong to;
- reads each package's manifest and license file into a dependency record;
- drops the dependencies matched by the ignore rules;
- patches records with the override rules;
- reports every dependency whose license is missing or not admitted by the allow
  expression;
- returns the records sorted by name for the output writer.

Modules:

- `Wrappers`: `Option` and `Result`.
- `JsValue`: the JavaScript values the pipeline handles, as a `Json` datatype. It covers:
  - objects as sequences of properties in insertion order;
  - truthiness and `&&`/`||`;
  - property reads;
  - `${v}` in a template literal;
  - the relational `<` on strings, by code units;
  - the deep copy `JSON.parse(JSON.stringify(x))`.
- `VersionExpression`: `parseVersionExpression`, and the version half of a rule match.
- `Records`: the dependency record, override patches and `Object.assign`, and the reading
  of an installed package (`getLicenseInformationForDependency`, `getLicenseContents`).
  The disk is a parameter.
- `Tables`: the `licenseInformation` object. It is a sequence of entries with distinct
  keys in insertion order, with `t[k]`, `t[k] = r`, `delete t[k]`, `Object.keys` and
  `Object.values`.
- `Reconcile`: `ignoreLicenses` and `overrideLicenses`. Each is a method with the loops of
  the source's nested folds, proved equal to a reference definition, with lemmas about
  what that definition keeps, drops and patches.
- `Violations`: `getLicenseViolations` and the `LicenseError` message prefix.
- `Report`: `getSortedLicenseInformation`. The library call `Array.prototype.sort` becomes
  a functional insertion sort, the reference order of a stable sort with that comparator.
  That sort is proved to be a permutation, to be ordered on string names, and to be
  stable, as `Array.prototype.sort` is.
- `Discovery`: `getLicenseInformationForCompilation`. It is a method over the
  compilation's file paths, proved equal to a reference fold, with lemmas about which keys
  the result has, which record each key holds, and which error aborts the fold.

Libraries and the environment are function parameters:

- minimatch is `glob(name, pattern)`;
- semver's `satisfies` is `satisfies(version, range)`;
- spdx-expression-validate and spdx-satisfies are `isValidLicense` and
  `isSatisfiedLicense`;
- the path filter's regular expression is a `Filter` that returns the two captured groups
  or nothing;
- the disk is a `Host`, which gives the parsed manifest at a path, whether a file exists,
  and a file's text.

A rule expression is split by `expr.split(/(?!^)@/)`, which splits at every `@` after
index 0, and the destructuring keeps only the first two parts. So `@scope/pkg@^1.0.0` has
the name `@scope/pkg` and the range `^1.0.0`, while `a@1@2` has the name `a` and the range
`1`, not the name `a@1`.
`VersionExpression.ParseVersionExpressionUnique` characterises exactly which split the code
makes.

A range that semver cannot parse makes `satisfies` return false. The model passes on
whatever boolean the `satisfies` parameter returns, so a malformed range makes a rule
simply not match.

## Model

| member | source | states |
|---|---|---|
| VersionExpression.ParseVersionExpressionJoin | src/licenseUtils.js:66 | Gluing the parts back together with `@` gives the expression. Only index 0 of the first part may hold an `@`. A leading `@` (a scope) stays in the name. |
| VersionExpression.ParseVersionExpressionUnique | src/licenseUtils.js:66 | Any decomposition of this shape that joins back to the expression is the result: the split is at every non-initial `@` and nowhere else. |
| VersionExpression.SinglePartHasNoRange | src/licenseUtils.js:66 | There is exactly one part iff no `@` follows index 0, and exactly then the range is absent. |
| VersionExpression.VersionMatchesMeaning | src/licenseUtils.js:75-76 | An absent or empty range matches every version. Any other range matches exactly the versions that satisfy it. |
| JsValue.TruthyFieldOr | src/licenseUtils.js:29-30 | `(v && v.key) \|\| v` is the nested field when `v` and that field are truthy, and `v` itself otherwise. |
| JsValue.GetClean | src/licenseUtils.js:25-30 | Reading a field of a JSON value, or applying the nested-field idiom to it, gives a JSON value. |
| JsValue.CopyOfClean | src/licenseUtils.js:82 | The deep copy of a value that came from JSON is that value. |
| JsValue.CopyIsClean | src/licenseUtils.js:82 | Every deep copy is a value that came from JSON. |
| JsValue.CopyNotUndefined | src/licenseUtils.js:82 | The deep copy is `undefined` exactly when the value is, so a field's absence survives the copy. |
| JsValue.CopyIdempotent | src/licenseUtils.js:100 | Copying twice is copying once. |
| JsValue.StringLessIrreflexive | src/licenseUtils.js:62 | No string is less than itself. |
| JsValue.StringLessAsymmetric | src/licenseUtils.js:62 | String `<` never holds in both directions. |
| JsValue.StringLessTransitive | src/licenseUtils.js:62 | String `<` is transitive. |
| JsValue.StringLessTotal | src/licenseUtils.js:62 | Of two different strings, one is less than the other. |
| Records.FindLicenseFilename | src/licenseUtils.js:18-20 | The result is present iff some candidate file exists, and it is then the first candidate, in list order, that exists. |
| Records.GetLicenseContents | src/licenseUtils.js:17-22 | The result is `undefined` iff none of the six license files exists. Otherwise it is the text of the first existing one, in the order `LICENSE`, `LICENSE.md`, `LICENSE.txt`, `license`, `license.md`, `license.txt`. |
| Records.GetLicenseInformationForDependency | src/licenseUtils.js:24-34 | An unreadable manifest fails, and so does a `null` or `undefined` manifest; every other manifest succeeds. On success `name`, `version` and `license` are copied. `author` is `author.name` when both are truthy, and the raw `author` otherwise; `repository` is derived the same way from `repository.url`. The license text is `getLicenseContents` of the package directory. |
| Records.DependencyRecordClean | src/licenseUtils.js:24-34 | A record read from a JSON manifest holds only JSON values. |
| Records.Assign | src/licenseUtils.js:96 | Every field the patch has takes the patch's value, and every other field keeps the record's. |
| Records.CopyRecordOfClean | src/licenseUtils.js:82 | A deep-copied record holds only JSON values, and a record of JSON values survives the copy unchanged. |
| Tables.Keys | src/licenseUtils.js:49 | `Object.keys` lists the entries' keys in table order. |
| Tables.Values | src/licenseUtils.js:61 | `Object.values` lists the entries' records in table order. |
| Tables.Lookup | src/licenseUtils.js:50 | `t[k]` for a present key is the record of an entry with key `k`. |
| Tables.Put | src/licenseUtils.js:42 | `t[k] = r` rewrites the entry of a present key in place and appends a new key at the end. |
| Tables.PutReads | src/licenseUtils.js:42 | After `t[k] = r` the keys are still distinct, and `k` reads `r`. |
| Tables.PutOther | src/licenseUtils.js:42 | `t[k] = r` leaves what every other key reads unchanged. |
| Tables.PutKeySet | src/licenseUtils.js:42 | `t[k] = r` adds `k` to the keys and no other key. |
| Tables.RemoveAt | src/licenseUtils.js:78 | In a table with distinct keys, `delete t[k]` removes exactly the entry of `k`. |
| Tables.RemoveTwice | src/licenseUtils.js:78 | Deleting a key twice is deleting it once. |
| Reconcile.CopyTable | src/licenseUtils.js:82 | The deep copy of the table keeps every key and place and copies every record. |
| Reconcile.IgnoredMeansSomeRuleMatches | src/licenseUtils.js:71-79 | A dependency is ignored iff some ignore rule matches both its name (glob) and its version. |
| Reconcile.IgnoreDependency | src/licenseUtils.js:71-81 | The inner fold deletes the dependency's key from the accumulator iff some ignore rule matches. The match uses the key and the version from the input table. Otherwise the accumulator is unchanged. |
| Reconcile.IgnoreLicenses | src/licenseUtils.js:68-84 | The nested folds over the deep copy compute the reference definition: the copied entries that no rule matches, in input order. |
| Reconcile.IgnoreLicensesKeys | src/licenseUtils.js:68-84 | A key is in the result iff it is in the input and no ignore rule matches it at its input version. |
| Reconcile.IgnoreLicensesRecords | src/licenseUtils.js:68-84 | Each surviving key holds the deep copy of its input record. |
| Reconcile.IgnoreLicensesCleanRecords | src/licenseUtils.js:68-84 | On a table read from JSON, each surviving key holds its input record itself. |
| Reconcile.IgnoreSpecEntries | src/licenseUtils.js:68-84 | Every entry of the result is the deep copy of an input entry. |
| Reconcile.IgnoreSpecDistinct | src/licenseUtils.js:68-84 | On a table with distinct keys, the ignore pass yields a table with distinct keys. |
| Reconcile.IgnoreIdempotent | src/licenseUtils.js:68-84 | On a table read from JSON, ignoring twice with the same rules is ignoring once. |
| Reconcile.OverrideSpec | src/licenseUtils.js:86-102 | Every entry keeps its key and place. Its record is the copy of the input record with the matching patches applied in the order of the override keys. |
| Reconcile.OverrideDependency | src/licenseUtils.js:89-99 | The inner fold writes into the dependency's record the patches of the rules whose name equals the key and whose range admits the input version, in order. Every other key is untouched. |
| Reconcile.OverrideLicenses | src/licenseUtils.js:86-102 | The nested folds over the deep copy compute the reference definition. |
| Reconcile.ApplyRuleField | src/licenseUtils.js:92-97 | A rule sets a field to its patch's value when it matches and its patch has the field. Otherwise the field is left alone. |
| Reconcile.ApplyOverridesUnset | src/licenseUtils.js:89-99 | A field that no matching rule sets keeps its value. |
| Reconcile.ApplyOverridesLastSetter | src/licenseUtils.js:89-99 | A field takes the value of the last matching rule that sets it. |
| Reconcile.OverrideLicensesKeys | src/licenseUtils.js:86-102 | The override pass keeps the input keys and their order. |
| Reconcile.OverrideSpecDistinct | src/licenseUtils.js:86-102 | On a table with distinct keys, the override pass yields a table with distinct keys. |
| Reconcile.OverrideLicensesUnset | src/licenseUtils.js:86-102 | In the result, a field that no matching rule sets holds the copied input value. |
| Reconcile.OverrideLicensesLastSetter | src/licenseUtils.js:86-102 | In the result, a field holds the value of the last matching rule that sets it. Matching keeps using the input version even when an earlier patch rewrote `version`. |
| Violations.NewLicenseError | src/LicenseError.js:4-5 | The error message is the prefix `License: ` followed by the detail. |
| Violations.MessagesDiffer | src/licenseUtils.js:52-54 | The "is unlicensed" and "has disallowed license" messages for the same dependency never coincide. |
| Violations.CheckMeaning | src/licenseUtils.js:51-55 | Each classification holds iff its condition holds. An entry is "unlicensed" iff its license name is falsy or `UNLICENSED`. It is "disallowed" iff it is not unlicensed and its name is invalid SPDX or not admitted by the allow expression. Otherwise it is clean. |
| Violations.GetLicenseViolations | src/licenseUtils.js:48-58 | The fold over the keys computes the reference list of the errors. |
| Violations.ViolationsConcat | src/licenseUtils.js:49-57 | The errors of two concatenated tables are the errors of each, in order. |
| Violations.FlaggedPositions | src/licenseUtils.js:48-58 | The flagged positions are valid positions and strictly increasing. A position is flagged iff its entry has a message. |
| Violations.ViolationsInKeyOrder | src/licenseUtils.js:48-58 | There is one error per flagged entry, in key order, and the `j`-th error carries the `j`-th flagged entry's message. |
| Report.Compare | src/licenseUtils.js:62 | The comparator is negative iff the first name is less than the second, and positive iff the second name is less than the first. |
| Report.CompareAntisymmetric | src/licenseUtils.js:62 | Swapping the operands negates the comparator. |
| Report.CompareStrings | src/licenseUtils.js:62 | On string names, the comparator is 0 iff the names are equal, and negative iff the first is less in code-unit order. |
| Report.GetSortedLicenseInformation | src/licenseUtils.js:60-64 | The result has one record per entry and is a permutation of the table's values. With string names it is in ascending name order. |
| Report.SortPermutes | src/licenseUtils.js:62 | The sort returns a permutation of its input. |
| Report.SortSorted | src/licenseUtils.js:62 | With string names, the sort's result is in ascending name order. |
| Report.SortStable | src/licenseUtils.js:62 | The sort is stable: records with the same name keep their input order. |
| Report.NotAfterTransitive | src/licenseUtils.js:62 | On string names, "does not sort after" is transitive. |
| Discovery.GetLicenseInformationForCompilation | src/licenseUtils.js:36-46 | The fold over the file paths computes the reference fold from the empty table. |
| Discovery.InformationFoldOk | src/licenseUtils.js:38-45 | The fold succeeds iff the package of every matched path can be read. |
| Discovery.InformationFoldErr | src/licenseUtils.js:38-45 | A failed fold reports the failure of the first matched path whose package cannot be read. |
| Discovery.InformationFoldKeys | src/licenseUtils.js:38-45 | The result's keys are distinct. They are the accumulator's keys and the captured dependency names, and no others. |
| Discovery.InformationFoldKeeps | src/licenseUtils.js:38-45 | A key that no remaining path names keeps its record. |
| Discovery.InformationFoldLastWins | src/licenseUtils.js:41-42 | A dependency name holds the record read at the root of the last path captured under that name. |
| Discovery.InformationFoldClean | src/licenseUtils.js:38-45 | If the reader returns only JSON records, the result holds only JSON records. |
| Discovery.PackageReaderClean | src/licenseUtils.js:42 | If the manifest under a root path is JSON, the record the package reader returns for that path holds only JSON values. |
| Discovery.CompilationClean | src/licenseUtils.js:36-46 | If every manifest is JSON, a successful fold over the compilation's paths yields a table of records that hold only JSON values. |
| Discovery.InformationResult | src/licenseUtils.js:36-46 | From the empty table, the result's keys are exactly the captured names, all distinct, and each name holds the record read at the root path of the last path captured under it. |

## Left out

- The file system and Node's module loader:
  - `existsSync`, `readFileSync` and `require` are the `Host` parameter;
  - `require`'s module cache is not modelled, so a manifest read twice is read afresh;
  - a `readFileSync` that throws is not modelled (the text function is total).
- Third-party libraries:
  - minimatch, semver and the SPDX libraries are parameters, so their own semantics are
    not modelled;
  - an exception thrown from inside them is not modelled either, for example
    spdx-satisfies on an invalid allow expression.
- The regular expression that filters paths is a parameter. A regular expression with
  fewer than two groups would give `undefined` captures; that is not modelled.
- The plugin beyond `src/licenseUtils.js` is not part of this model:
  - the plugin class in `src/index.js`;
  - option handling in `src/optionsUtils.js`;
  - the output writer in `src/defaultOutputWriter.js`;
  - the webpack error machinery behind `LicenseError`, beyond its message prefix.
- Object key order for integer-like keys, which JavaScript lists first, is not modelled,
  and neither is the special `__proto__` key. Keys are kept in plain insertion order.
- Numbers are integers. Fractions, `NaN` and infinities are not modelled, and neither is
  their printing by `${}`.
- JsValue.LessThan: `<` is modelled on two strings only. Any pair involving a number,
  `null` or a boolean counts as unordered, where JavaScript would convert both to numbers.
  Strings compare by code units; characters outside the basic plane, which are two code
  units in JavaScript, are single characters here.
- Report.GetSortedLicenseInformation: the ascending order is proved only for string names.
  With names of other kinds the comparator can be inconsistent. JavaScript then leaves the
  order implementation-defined, and the model fixes one order (the insertion sort's).
- `licenses.sort` sorts the array of values in place. The model returns the sorted
  sequence instead, since the array is local to the function and no other reference to it
  exists.
- Records.Assign: a patch key outside the six record fields is not modelled. The option
  schema (`Joi.object()`) accepts such keys, and `Object.assign` would add them to the
  record.
- Reconcile.IgnoreLicenses, Reconcile.OverrideLicenses and Violations.GetLicenseViolations
  require distinct keys. That is an invariant of every table the pipeline builds, not a
  demand on callers: the discovery table has distinct keys (Discovery.InformationResult),
  the ignore pass keeps them distinct (Reconcile.IgnoreSpecDistinct), and so does the
  override pass (Reconcile.OverrideSpecDistinct).
- License values of other shapes (a `{type}` object, a `licenses` array) are not
  normalised. src/licenseUtils.js defines no function that would do so and copies
  `package.license` as it is (line 31). An object-valued `license` therefore reaches the
  SPDX predicates unchanged.
- Reconcile.IgnoreIdempotent holds only for tables whose records came from JSON. Those are
  the only tables the pipeline builds (Discovery.CompilationClean).
- That the passes leave their input object unchanged needs no statement, since the model
  works on values. The deep copy's effect on records is stated by Reconcile.CopyTable.
