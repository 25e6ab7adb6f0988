/** A dependency table: the JavaScript object that maps a dependency's directory name to its
    record. Object keys are unique and keep their insertion order, so the table is a
    sequence of entries with distinct keys. */
module Tables {
  import opened Records

  datatype Entry = Entry(key: string, record: Record)

  type Table = seq<Entry>

  /** `Object.keys(t)`. */
  function Keys(t: Table): (ks: seq<string>)
    ensures |ks| == |t| && forall i :: 0 <= i < |t| ==> ks[i] == t[i].key
  {
    if t == [] then [] else [t[0].key] + Keys(t[1..])
  }

  /** `Object.values(t)`. */
  function Values(t: Table): (vs: seq<Record>)
    ensures |vs| == |t| && forall i :: 0 <= i < |t| ==> vs[i] == t[i].record
  {
    if t == [] then [] else [t[0].record] + Values(t[1..])
  }

  /** Every record of the table holds only values that came from JSON. */
  predicate CleanTable(t: Table) {
    forall i :: 0 <= i < |t| ==> CleanRecord(t[i].record)
  }

  predicate DistinctKeys(t: Table) {
    forall i, j :: 0 <= i < j < |t| ==> t[i].key != t[j].key
  }

  /** `t[k]` for a key that is present. */
  function Lookup(t: Table, k: string): (r: Record)
    requires k in Keys(t)
    ensures exists i :: 0 <= i < |t| && t[i] == Entry(k, r)
  {
    if t[0].key == k then t[0].record
    else
      assert Keys(t) == [t[0].key] + Keys(t[1..]);
      var r := Lookup(t[1..], k);
      assert forall i :: 1 <= i < |t| ==> t[i] == t[1..][i - 1];
      r
  }

  /** `t[k] = r`: an existing key keeps its place and gets the new record, a new key is
      appended. */
  function Put(t: Table, k: string, r: Record): (u: Table)
    ensures k in Keys(t) ==> |u| == |t|
    ensures k in Keys(t) ==> forall i :: 0 <= i < |t| ==> u[i] == if t[i].key == k then Entry(k, r) else t[i]
    ensures k !in Keys(t) ==> u == t + [Entry(k, r)]
  {
    if k in Keys(t) then seq(|t|, i requires 0 <= i < |t| => if t[i].key == k then Entry(k, r) else t[i])
    else t + [Entry(k, r)]
  }

  /** `delete t[k]`. */
  function Remove(t: Table, k: string): (u: Table)
    ensures |u| <= |t|
  {
    if t == [] then []
    else if t[0].key == k then Remove(t[1..], k)
    else [t[0]] + Remove(t[1..], k)
  }

  lemma {:induction false} RemoveAbsent(t: Table, k: string)
    requires forall p :: 0 <= p < |t| ==> t[p].key != k
    ensures Remove(t, k) == t
  {
    if t != [] {
      assert forall p :: 0 <= p < |t[1..]| ==> t[1..][p] == t[p + 1];
      RemoveAbsent(t[1..], k);
      assert t == [t[0]] + t[1..];
    }
  }

  lemma {:induction false} RemoveConcat(a: Table, b: Table, k: string)
    ensures Remove(a + b, k) == Remove(a, k) + Remove(b, k)
  {
    if a != [] {
      assert (a + b)[1..] == a[1..] + b;
      RemoveConcat(a[1..], b, k);
    } else {
      assert a + b == b;
    }
  }

  lemma SplitAround(t: Table, i: nat)
    requires i < |t|
    ensures t == t[..i] + ([t[i]] + t[i + 1..])
  {
  }

  /** In a table with distinct keys, no entry before or after entry `i` has its key. */
  lemma KeyOnlyAt(t: Table, i: nat, front: Table, back: Table)
    requires DistinctKeys(t) && i < |t| && front == t[..i] && back == t[i + 1..]
    ensures forall p :: 0 <= p < |front| ==> front[p].key != t[i].key
    ensures forall p :: 0 <= p < |back| ==> back[p].key != t[i].key
  {
    assert forall p :: 0 <= p < |front| ==> front[p] == t[p];
    assert forall p :: 0 <= p < |back| ==> back[p] == t[i + 1 + p];
  }

  /** In a table with distinct keys, deleting the key of entry `i` removes exactly that
      entry. */
  lemma RemoveAt(t: Table, i: nat)
    requires DistinctKeys(t) && i < |t|
    ensures Remove(t, t[i].key) == t[..i] + t[i + 1..]
  {
    var k := t[i].key;
    var front, back := t[..i], t[i + 1..];
    SplitAround(t, i);
    KeyOnlyAt(t, i, front, back);
    RemoveConcat(front, [t[i]] + back, k);
    RemoveConcat([t[i]], back, k);
    RemoveAbsent(front, k);
    RemoveAbsent(back, k);
    assert Remove([t[i]], k) == Remove([], k) == [];
  }

  /** In a table with distinct keys, the key of entry `i` reads entry `i`'s record. */
  lemma LookupAt(t: Table, i: nat)
    requires DistinctKeys(t) && i < |t|
    ensures t[i].key in Keys(t) && Lookup(t, t[i].key) == t[i].record
  {
    assert Keys(t)[i] == t[i].key;
  }

  /** In a table, rewriting the key of entry `i` replaces that entry alone. */
  lemma PutAt(t: Table, i: nat, r: Record)
    requires DistinctKeys(t) && i < |t|
    ensures Put(t, t[i].key, r) == t[..i] + [Entry(t[i].key, r)] + t[i + 1..]
  {
    var k := t[i].key;
    assert Keys(t)[i] == k;
    var u := Put(t, k, r);
    var v := t[..i] + [Entry(k, r)] + t[i + 1..];
    assert |u| == |v|;
    forall j | 0 <= j < |t| ensures u[j] == v[j] {
      if j < i {
        assert v[j] == t[j];
      } else if j > i {
        assert v[j] == t[j];
      }
    }
  }

  /** Deleting a key twice is deleting it once. */
  lemma {:induction false} RemoveTwice(t: Table, k: string)
    ensures Remove(Remove(t, k), k) == Remove(t, k)
  {
    if t != [] {
      RemoveTwice(t[1..], k);
      if t[0].key != k {
        var u := [t[0]] + Remove(t[1..], k);
        assert u[0] == t[0] && u[1..] == Remove(t[1..], k);
      }
    }
  }

  /** Writing a key's own record back leaves the table as it was. */
  lemma PutLookup(t: Table, k: string)
    requires DistinctKeys(t) && k in Keys(t)
    ensures Put(t, k, Lookup(t, k)) == t
  {
    var i :| 0 <= i < |t| && t[i] == Entry(k, Lookup(t, k));
    var u := Put(t, k, Lookup(t, k));
    forall p | 0 <= p < |t| ensures u[p] == t[p] {
      if t[p].key == k {
        assert p == i;
      }
    }
  }

  /** A write to a present key keeps the keys, their order and their distinctness. */
  lemma PutKeys(t: Table, k: string, r: Record)
    requires k in Keys(t)
    ensures Keys(Put(t, k, r)) == Keys(t)
  {
    var u := Put(t, k, r);
    assert forall p :: 0 <= p < |t| ==> u[p].key == t[p].key;
  }

  /** After a write to a present key, the key reads the written record. */
  lemma LookupPut(t: Table, k: string, r: Record)
    requires DistinctKeys(t) && k in Keys(t)
    ensures DistinctKeys(Put(t, k, r))
    ensures k in Keys(Put(t, k, r)) && Lookup(Put(t, k, r), k) == r
  {
    var u := Put(t, k, r);
    PutKeys(t, k, r);
    assert DistinctKeys(u) by {
      forall i, j | 0 <= i < j < |u| ensures u[i].key != u[j].key {
        assert u[i].key == Keys(u)[i] == Keys(t)[i] == t[i].key;
        assert u[j].key == Keys(u)[j] == Keys(t)[j] == t[j].key;
      }
    }
    var i :| 0 <= i < |t| && t[i] == Entry(k, Lookup(t, k));
    assert u[i] == Entry(k, r);
    LookupAt(u, i);
  }

  /** The second of two writes to the same present key wins. */
  lemma PutPut(t: Table, k: string, r1: Record, r2: Record)
    requires k in Keys(t)
    ensures Put(Put(t, k, r1), k, r2) == Put(t, k, r2)
  {
    PutKeys(t, k, r1);
  }

  /** A write adds its key to the keys and no other. */
  lemma PutKeySet(t: Table, k: string, r: Record)
    ensures forall k2 :: k2 in Keys(Put(t, k, r)) <==> k2 in Keys(t) || k2 == k
  {
    if k in Keys(t) {
      PutKeys(t, k, r);
    } else {
      KeysSnoc(t, Entry(k, r));
    }
  }

  lemma KeysSnoc(t: Table, e: Entry)
    ensures Keys(t + [e]) == Keys(t) + [e.key]
  {
    var u := t + [e];
    assert forall p :: 0 <= p < |t| ==> u[p] == t[p];
  }

  /** Any write keeps the keys distinct, and the written key then reads the written
      record. */
  lemma PutReads(t: Table, k: string, r: Record)
    requires DistinctKeys(t)
    ensures DistinctKeys(Put(t, k, r)) && k in Keys(Put(t, k, r)) && Lookup(Put(t, k, r), k) == r
  {
    if k in Keys(t) {
      LookupPut(t, k, r);
    } else {
      var u := t + [Entry(k, r)];
      assert forall p :: 0 <= p < |t| ==> u[p] == t[p] && t[p].key == Keys(t)[p];
      assert DistinctKeys(u);
      LookupAt(u, |t|);
    }
  }

  /** A write leaves what every other key reads unchanged. */
  lemma PutOther(t: Table, k: string, r: Record, k2: string)
    requires DistinctKeys(t) && k2 in Keys(t) && k2 != k
    ensures k2 in Keys(Put(t, k, r)) && Lookup(Put(t, k, r), k2) == Lookup(t, k2)
  {
    var u := Put(t, k, r);
    PutReads(t, k, r);
    var i :| 0 <= i < |t| && t[i] == Entry(k2, Lookup(t, k2));
    if k in Keys(t) {
      assert u[i] == t[i];
    } else {
      assert u[i] == (t + [Entry(k, r)])[i] == t[i];
    }
    LookupAt(u, i);
  }

  lemma PutClean(t: Table, k: string, r: Record)
    requires CleanTable(t) && CleanRecord(r)
    ensures CleanTable(Put(t, k, r))
  {
    if k !in Keys(t) {
      var u := t + [Entry(k, r)];
      assert forall p :: 0 <= p < |t| ==> u[p] == t[p];
    }
  }
}
