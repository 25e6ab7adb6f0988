/** The JavaScript values that flow through the license pipeline: parsed package manifests,
    override patches and the fields of a dependency record. Only the parts of JavaScript's
    semantics that the pipeline relies on are modelled: truthiness, the `&&` and `||`
    operators, property reads, conversion to a string inside a template literal, the
    relational `<` on names, and the deep copy made by `JSON.parse(JSON.stringify(x))`. */
module JsValue {

  /** A JSON-like JavaScript value. `Undefined` is JavaScript's `undefined`, which is also
      what reading an absent property yields. Numbers are integers (see README). Object
      properties keep their insertion order. */
  datatype Json =
    | Undefined
    | Null
    | Bool(b: bool)
    | Num(n: int)
    | Str(s: string)
    | Arr(items: seq<Json>)
    | Obj(props: seq<Prop>)

  datatype Prop = Prop(key: string, value: Json)

  /** ToBoolean: the values for which `!v` is true are exactly the falsy ones. */
  predicate Truthy(v: Json) {
    match v
    case Undefined => false
    case Null => false
    case Bool(b) => b
    case Num(n) => n != 0
    case Str(s) => s != ""
    case Arr(_) => true
    case Obj(_) => true
  }

  /** `a && b` */
  function And(a: Json, b: Json): (r: Json) {
    if Truthy(a) then b else a
  }

  /** `a || b` */
  function Or(a: Json, b: Json): (r: Json) {
    if Truthy(a) then a else b
  }

  /** The first property called `key`, if any. */
  function LookupProp(props: seq<Prop>, key: string): (r: Json)
    ensures r != Undefined ==> exists i :: 0 <= i < |props| && props[i] == Prop(key, r)
    ensures (forall i :: 0 <= i < |props| ==> props[i].key != key) ==> r == Undefined
  {
    if props == [] then Undefined
    else if props[0].key == key then props[0].value
    else LookupProp(props[1..], key)
  }

  /** The property read `v.key` on a value that is neither `null` nor `undefined`. Strings,
      numbers, booleans and arrays have no own property called `name` or `url`, and neither
      has `Object.prototype`, so for the keys the pipeline reads they yield `undefined`. */
  function Get(v: Json, key: string): (r: Json) {
    if v.Obj? then LookupProp(v.props, key) else Undefined
  }

  /** `(v && v.key) || v`: the idiom that takes a nested field when it is truthy. */
  function TruthyFieldOr(v: Json, key: string): (r: Json)
    ensures r == if Truthy(v) && Truthy(Get(v, key)) then Get(v, key) else v
  {
    Or(And(v, Get(v, key)), v)
  }

  /** Reading a property of a value that came from JSON gives a value that came from JSON. */
  lemma GetClean(v: Json, key: string)
    requires Clean(v)
    ensures Clean(Get(v, key)) && Clean(TruthyFieldOr(v, key))
  {
    if v.Obj? && Get(v, key) != Undefined {
      var i :| 0 <= i < |v.props| && v.props[i] == Prop(key, Get(v, key));
    }
  }

  // ---------------------------------------------------------------------------------------
  // Conversion to a string, as `${v}` in a template literal does it.

  function DigitChar(d: int): (c: char)
    requires 0 <= d < 10
  {
    "0123456789"[d]
  }

  function NatToString(n: nat): (r: string)
    ensures |r| >= 1
    ensures forall i :: 0 <= i < |r| ==> '0' <= r[i] <= '9'
  {
    if n < 10 then [DigitChar(n)] else NatToString(n / 10) + [DigitChar(n % 10)]
  }

  function IntToString(n: int): (r: string)
    ensures |r| >= 1 && (r[0] == '-' <==> n < 0)
  {
    if n < 0 then "-" + NatToString(-n) else NatToString(n)
  }

  /** `${v}`. An array joins its elements with commas, an array element that is `null` or
      `undefined` giving the empty string; every object gives "[object Object]". */
  function ToString(v: Json): (s: string) {
    match v
    case Undefined => "undefined"
    case Null => "null"
    case Bool(b) => if b then "true" else "false"
    case Num(n) => IntToString(n)
    case Str(s) => s
    case Arr(items) => JoinItems(items)
    case Obj(_) => "[object Object]"
  }

  function JoinItems(items: seq<Json>): (s: string) {
    if items == [] then ""
    else
      var first := if items[0] == Undefined || items[0] == Null then "" else ToString(items[0]);
      if |items| == 1 then first else first + "," + JoinItems(items[1..])
  }

  // ---------------------------------------------------------------------------------------
  // The relational comparison `a < b` used by the report's comparator.

  /** Code-unit order on strings: a proper prefix is smaller, otherwise the first differing
      character decides. */
  predicate StringLess(a: string, b: string) {
    if a == [] then b != []
    else if b == [] then false
    else if a[0] != b[0] then a[0] < b[0]
    else StringLess(a[1..], b[1..])
  }

  /** `a < b` on two values. Two strings compare by code units; any comparison that involves
      `undefined` is false. Other operand kinds are treated as unordered (see README). */
  predicate LessThan(a: Json, b: Json) {
    a.Str? && b.Str? && StringLess(a.s, b.s)
  }

  lemma {:induction false} StringLessIrreflexive(a: string)
    ensures !StringLess(a, a)
  {
    if a != [] {
      StringLessIrreflexive(a[1..]);
    }
  }

  lemma {:induction false} StringLessAsymmetric(a: string, b: string)
    ensures StringLess(a, b) ==> !StringLess(b, a)
  {
    if a != [] && b != [] && a[0] == b[0] {
      StringLessAsymmetric(a[1..], b[1..]);
    }
  }

  lemma {:induction false} StringLessTransitive(a: string, b: string, c: string)
    requires StringLess(a, b) && StringLess(b, c)
    ensures StringLess(a, c)
  {
    if a != [] && b != [] && c != [] && a[0] == b[0] && b[0] == c[0] {
      StringLessTransitive(a[1..], b[1..], c[1..]);
    }
  }

  /** Two different strings are always ordered one way or the other. */
  lemma {:induction false} StringLessTotal(a: string, b: string)
    requires a != b
    ensures StringLess(a, b) || StringLess(b, a)
  {
    if a != [] && b != [] && a[0] == b[0] {
      assert a == [a[0]] + a[1..] && b == [b[0]] + b[1..];
      StringLessTotal(a[1..], b[1..]);
    }
  }

  // ---------------------------------------------------------------------------------------
  // The deep copy `JSON.parse(JSON.stringify(x))`.

  /** What survives the JSON round trip of a property value: `undefined` stays `undefined`
      (the property is dropped, and reading it again gives `undefined`); inside an array it
      becomes `null`; an object loses its `undefined`-valued properties. */
  function Copy(v: Json): (c: Json) {
    match v
    case Arr(items) => Arr(CopyItems(items))
    case Obj(props) => Obj(CopyProps(props))
    case _ => v
  }

  function CopyItems(items: seq<Json>): (r: seq<Json>)
    ensures |r| == |items|
  {
    if items == [] then []
    else [if items[0] == Undefined then Null else Copy(items[0])] + CopyItems(items[1..])
  }

  function CopyProps(props: seq<Prop>): (r: seq<Prop>) {
    if props == [] then []
    else
      (if props[0].value == Undefined then [] else [Prop(props[0].key, Copy(props[0].value))])
      + CopyProps(props[1..])
  }

  /** A value that already has the shape `JSON.parse` produces: no `undefined` anywhere
      below the top level. Every value read from a package manifest has it. */
  predicate Clean(v: Json) {
    match v
    case Arr(items) => CleanItems(items)
    case Obj(props) => CleanProps(props)
    case _ => true
  }

  predicate CleanItems(items: seq<Json>) {
    forall i :: 0 <= i < |items| ==> items[i] != Undefined && Clean(items[i])
  }

  predicate CleanProps(props: seq<Prop>) {
    forall i :: 0 <= i < |props| ==> props[i].value != Undefined && Clean(props[i].value)
  }

  /** The copy of a clean value is the value itself. */
  lemma {:induction false} CopyOfClean(v: Json)
    requires Clean(v)
    ensures Copy(v) == v
  {
    match v
    case Arr(items) => CopyItemsOfClean(items);
    case Obj(props) => CopyPropsOfClean(props);
    case _ =>
  }

  lemma {:induction false} CopyItemsOfClean(items: seq<Json>)
    requires CleanItems(items)
    ensures CopyItems(items) == items
  {
    if items != [] {
      CopyOfClean(items[0]);
      CopyItemsOfClean(items[1..]);
    }
  }

  lemma {:induction false} CopyPropsOfClean(props: seq<Prop>)
    requires CleanProps(props)
    ensures CopyProps(props) == props
  {
    if props != [] {
      CopyOfClean(props[0].value);
      CopyPropsOfClean(props[1..]);
    }
  }

  /** Every copy is clean: the round trip leaves no `undefined` below the top level. */
  lemma {:induction false} CopyIsClean(v: Json)
    ensures Clean(Copy(v))
  {
    match v
    case Arr(items) =>
      CopyItemsAreClean(items);
      assert Copy(v) == Arr(CopyItems(items));
    case Obj(props) =>
      CopyPropsAreClean(props);
      assert Copy(v) == Obj(CopyProps(props));
    case _ =>
  }

  lemma {:induction false} CopyItemsAreClean(items: seq<Json>)
    ensures CleanItems(CopyItems(items))
  {
    if items != [] {
      CopyNotUndefined(items[0]);
      CopyIsClean(items[0]);
      CopyItemsAreClean(items[1..]);
      var head := if items[0] == Undefined then Null else Copy(items[0]);
      var r, rest := CopyItems(items), CopyItems(items[1..]);
      assert r == [head] + rest;
      assert head != Undefined && Clean(head);
      forall i | 0 <= i < |r| ensures r[i] != Undefined && Clean(r[i]) {
        if i > 0 {
          assert r[i] == rest[i - 1];
        }
      }
    }
  }

  lemma {:induction false} CopyPropsAreClean(props: seq<Prop>)
    ensures CleanProps(CopyProps(props))
  {
    if props != [] {
      CopyNotUndefined(props[0].value);
      CopyIsClean(props[0].value);
      CopyPropsAreClean(props[1..]);
      var head := if props[0].value == Undefined then [] else [Prop(props[0].key, Copy(props[0].value))];
      var rest := CopyProps(props[1..]);
      var r := CopyProps(props);
      assert r == head + rest;
      assert forall j :: 0 <= j < |head| ==> head[j].value != Undefined && Clean(head[j].value);
      forall i | 0 <= i < |r| ensures r[i].value != Undefined && Clean(r[i].value) {
        if i >= |head| {
          assert r[i] == rest[i - |head|];
        } else {
          assert r[i] == head[i];
        }
      }
    }
  }

  lemma CopyNotUndefined(v: Json)
    ensures Copy(v) == Undefined <==> v == Undefined
  {
  }

  /** Copying twice is copying once. */
  lemma CopyIdempotent(v: Json)
    ensures Copy(Copy(v)) == Copy(v)
  {
    CopyIsClean(v);
    CopyOfClean(Copy(v));
  }
}
