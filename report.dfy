/** `getSortedLicenseInformation`: the table's records in ascending `name` order, sorted in
    place with the comparator `(a, b) => a < b ? -1 : a > b ? 1 : 0`. `Array.prototype.sort`
    is stable, so the reference order is that of an insertion sort that moves each record
    left only past records whose name compares greater. */
module Report {
  import opened JsValue
  import opened Records
  import opened Tables

  /** The comparator on two `name` values. */
  function Compare(nameA: Json, nameB: Json): (c: int)
    ensures c < 0 <==> LessThan(nameA, nameB)
    ensures c > 0 <==> LessThan(nameB, nameA)
  {
    LessThanAsymmetric(nameA, nameB);
    if LessThan(nameA, nameB) then -1 else if LessThan(nameB, nameA) then 1 else 0
  }

  lemma LessThanAsymmetric(a: Json, b: Json)
    ensures LessThan(a, b) ==> !LessThan(b, a)
  {
    if a.Str? && b.Str? {
      StringLessAsymmetric(a.s, b.s);
    }
  }

  lemma LessThanIrreflexive(a: Json)
    ensures !LessThan(a, a)
  {
    if a.Str? {
      StringLessIrreflexive(a.s);
    }
  }

  /** The comparator is antisymmetric, as `Array.prototype.sort` requires of it. */
  lemma CompareAntisymmetric(nameA: Json, nameB: Json)
    ensures Compare(nameA, nameB) == -Compare(nameB, nameA)
  {
    LessThanAsymmetric(nameA, nameB);
  }

  /** On two strings the comparator returns 0 only when they are equal, and it orders
      them by code units otherwise. */
  lemma CompareStrings(nameA: Json, nameB: Json)
    requires nameA.Str? && nameB.Str?
    ensures Compare(nameA, nameB) == 0 <==> nameA == nameB
    ensures Compare(nameA, nameB) < 0 <==> StringLess(nameA.s, nameB.s)
  {
    if nameA == nameB {
      StringLessIrreflexive(nameA.s);
    } else {
      StringLessTotal(nameA.s, nameB.s);
    }
  }

  /** `a` does not sort after `b`. */
  predicate NotAfter(a: Record, b: Record) {
    !LessThan(b.name, a.name)
  }

  predicate SortedByName(s: seq<Record>) {
    forall i, j :: 0 <= i < j < |s| ==> NotAfter(s[i], s[j])
  }

  predicate StringNames(s: seq<Record>) {
    forall i :: 0 <= i < |s| ==> s[i].name.Str?
  }

  /** Insert `x` into `s`, from the right, before every record whose name compares greater
      than `x`'s. */
  function Insert(s: seq<Record>, x: Record): (r: seq<Record>)
    ensures |r| == |s| + 1
  {
    if s == [] || Compare(s[|s| - 1].name, x.name) <= 0 then s + [x]
    else Insert(s[..|s| - 1], x) + [s[|s| - 1]]
  }

  /** Reference order of the sort: insertion sort of the records in their given order. */
  function SortByName(s: seq<Record>): (r: seq<Record>)
    ensures |r| == |s|
  {
    if s == [] then [] else Insert(SortByName(s[..|s| - 1]), s[|s| - 1])
  }

  /** `getSortedLicenseInformation`: `Object.values` of the table, sorted by name. */
  function GetSortedLicenseInformation(licenseInformation: Table): (licenses: seq<Record>)
    ensures |licenses| == |licenseInformation|
    ensures multiset(licenses) == multiset(Values(licenseInformation))
    ensures StringNames(Values(licenseInformation)) ==> SortedByName(licenses)
  {
    var values := Values(licenseInformation);
    SortPermutes(values);
    if StringNames(values) then SortSorted(values); SortByName(values) else SortByName(values)
  }

  // ---------------------------------------------------------------------------------------
  // What the order is.

  lemma {:induction false} InsertPermutes(s: seq<Record>, x: Record)
    ensures multiset(Insert(s, x)) == multiset(s) + multiset{x}
  {
    if s != [] && Compare(s[|s| - 1].name, x.name) > 0 {
      var n := |s| - 1;
      InsertPermutes(s[..n], x);
      assert s == s[..n] + [s[n]];
    }
  }

  /** The sort returns a permutation of the records. */
  lemma {:induction false} SortPermutes(s: seq<Record>)
    ensures multiset(SortByName(s)) == multiset(s)
  {
    if s != [] {
      var n := |s| - 1;
      SortPermutes(s[..n]);
      InsertPermutes(SortByName(s[..n]), s[n]);
      assert s == s[..n] + [s[n]];
    }
  }

  /** On string names, "does not sort after" is transitive. */
  lemma NotAfterTransitive(a: Record, b: Record, c: Record)
    requires a.name.Str? && b.name.Str? && c.name.Str?
    requires NotAfter(a, b) && NotAfter(b, c)
    ensures NotAfter(a, c)
  {
    if LessThan(c.name, a.name) {
      if a.name == b.name {
      } else if b.name == c.name {
      } else {
        StringLessTotal(a.name.s, b.name.s);
        StringLessTotal(b.name.s, c.name.s);
        StringLessTransitive(a.name.s, b.name.s, c.name.s);
        StringLessAsymmetric(a.name.s, c.name.s);
      }
    }
  }

  /** Every record of `Insert(s, x)` is `x` or a record of `s`. */
  lemma {:induction false} InsertMembers(s: seq<Record>, x: Record)
    ensures forall p :: 0 <= p < |Insert(s, x)| ==> Insert(s, x)[p] == x || Insert(s, x)[p] in s
  {
    if s != [] && Compare(s[|s| - 1].name, x.name) > 0 {
      var n := |s| - 1;
      InsertMembers(s[..n], x);
      var r := Insert(s, x);
      var front := Insert(s[..n], x);
      assert r == front + [s[n]];
      forall p | 0 <= p < |r| ensures r[p] == x || r[p] in s {
        if p < |front| {
          assert r[p] == front[p];
          if front[p] != x {
            var q :| 0 <= q < n && s[..n][q] == front[p];
            assert s[q] == front[p];
          }
        }
      }
    }
  }

  lemma SortedSnoc(s: seq<Record>, y: Record)
    requires SortedByName(s)
    requires forall p :: 0 <= p < |s| ==> NotAfter(s[p], y)
    ensures SortedByName(s + [y])
  {
    var r := s + [y];
    forall i, j | 0 <= i < j < |r| ensures NotAfter(r[i], r[j]) {
      assert r[i] == s[i];
      if j < |s| {
        assert r[j] == s[j];
      }
    }
  }

  lemma {:induction false} InsertSorted(s: seq<Record>, x: Record)
    requires SortedByName(s) && StringNames(s) && x.name.Str?
    ensures SortedByName(Insert(s, x)) && StringNames(Insert(s, x))
  {
    InsertMembers(s, x);
    var r := Insert(s, x);
    forall p | 0 <= p < |r| ensures r[p].name.Str? {
      if r[p] != x {
        var q :| 0 <= q < |s| && s[q] == r[p];
      }
    }
    var n := |s| - 1;
    if s == [] || Compare(s[n].name, x.name) <= 0 {
      if s != [] {
        forall p | 0 <= p < |s| ensures NotAfter(s[p], x) {
          if p < n {
            NotAfterTransitive(s[p], s[n], x);
          }
        }
      }
      SortedSnoc(s, x);
    } else {
      var last := s[n];
      assert SortedByName(s[..n]) && StringNames(s[..n]);
      InsertSorted(s[..n], x);
      var front := Insert(s[..n], x);
      InsertMembers(s[..n], x);
      assert LessThan(x.name, last.name);
      forall p | 0 <= p < |front| ensures NotAfter(front[p], last) {
        if front[p] != x {
          var q :| 0 <= q < n && s[..n][q] == front[p];
          assert s[q] == front[p];
        } else {
          LessThanAsymmetric(x.name, last.name);
        }
      }
      SortedSnoc(front, last);
    }
  }

  /** With string names, the result is in ascending name order. */
  lemma {:induction false} SortSorted(s: seq<Record>)
    requires StringNames(s)
    ensures SortedByName(SortByName(s)) && StringNames(SortByName(s))
  {
    if s != [] {
      var n := |s| - 1;
      assert StringNames(s[..n]) by {
        assert forall p :: 0 <= p < n ==> s[..n][p] == s[p];
      }
      SortSorted(s[..n]);
      InsertSorted(SortByName(s[..n]), s[n]);
    }
  }

  /** The records with a given name, in order. */
  function WithName(s: seq<Record>, name: Json): (w: seq<Record>) {
    if s == [] then []
    else WithName(s[..|s| - 1], name) + if s[|s| - 1].name == name then [s[|s| - 1]] else []
  }

  lemma {:induction false} WithNameConcat(a: seq<Record>, b: seq<Record>, name: Json)
    ensures WithName(a + b, name) == WithName(a, name) + WithName(b, name)
  {
    if b == [] {
      assert a + b == a;
    } else {
      var n := |b| - 1;
      WithNameConcat(a, b[..n], name);
      assert (a + b)[..|a + b| - 1] == a + b[..n];
    }
  }

  lemma {:induction false} InsertKeepsOrder(s: seq<Record>, x: Record, name: Json)
    ensures WithName(Insert(s, x), name) == WithName(s, name) + WithName([x], name)
  {
    if s == [] || Compare(s[|s| - 1].name, x.name) <= 0 {
      WithNameConcat(s, [x], name);
    } else {
      var n := |s| - 1;
      var last := s[n];
      InsertKeepsOrder(s[..n], x, name);
      WithNameConcat(Insert(s[..n], x), [last], name);
      WithNameConcat(s[..n], [last], name);
      assert s == s[..n] + [last];
      LessThanIrreflexive(x.name);
      assert x.name != last.name;
      assert [x][..0] == [] && [last][..0] == [];
    }
  }

  /** The sort is stable: records with equal names keep their input order. */
  lemma {:induction false} SortStable(s: seq<Record>, name: Json)
    ensures WithName(SortByName(s), name) == WithName(s, name)
  {
    if s != [] {
      var n := |s| - 1;
      SortStable(s[..n], name);
      InsertKeepsOrder(SortByName(s[..n]), s[n], name);
      assert [s[n]][..0] == [];
    }
  }
}
