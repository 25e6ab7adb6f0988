/** Rule keys of the form `name` or `name@range`, as `parseVersionExpression` splits them,
    and the version half of a rule match. */
module VersionExpression {
  import opened Wrappers
  import opened JsValue

  /** `s.split("@")`: the pieces between consecutive '@' characters. */
  function SplitAtSigns(s: string): (parts: seq<string>)
    ensures |parts| >= 1
  {
    if s == [] then [""]
    else
      var rest := SplitAtSigns(s[1..]);
      if s[0] == '@' then [""] + rest else [[s[0]] + rest[0]] + rest[1..]
  }

  /** `expr.split(/(?!^)@/)`: split at every '@' except one at index 0. */
  function ParseVersionExpression(expr: string): (parts: seq<string>)
    ensures |parts| >= 1
  {
    if expr == [] then [""]
    else
      var rest := SplitAtSigns(expr[1..]);
      [[expr[0]] + rest[0]] + rest[1..]
  }

  /** The inverse of splitting: the parts glued together again with '@'. */
  function JoinWithAt(parts: seq<string>): (s: string)
    requires |parts| >= 1
  {
    if |parts| == 1 then parts[0] else parts[0] + "@" + JoinWithAt(parts[1..])
  }

  predicate NoAt(s: string) {
    forall k :: 0 <= k < |s| ==> s[k] != '@'
  }

  /** The shape every result of ParseVersionExpression has: only the first part may hold an
      '@', and only at its index 0. */
  predicate WellSplit(parts: seq<string>) {
    && |parts| >= 1
    && (|parts| > 1 ==> parts[0] != [])
    && (forall k :: 0 < k < |parts[0]| ==> parts[0][k] != '@')
    && (forall i :: 1 <= i < |parts| ==> NoAt(parts[i]))
  }

  /** The rule's name part (always present). */
  function RuleName(expr: string): (name: string) {
    ParseVersionExpression(expr)[0]
  }

  /** The rule's range part: `undefined` when the expression has no non-initial '@'. Any
      part after the second is dropped by the destructuring `[name, range]`. */
  function RuleRange(expr: string): (range: Option<string>) {
    var parts := ParseVersionExpression(expr);
    if |parts| >= 2 then Some(parts[1]) else None
  }

  function RangeValue(range: Option<string>): (v: Json) {
    match range
    case None => Undefined
    case Some(r) => Str(r)
  }

  /** `!range || isSatisfiedVersion(version, range)`. */
  predicate VersionMatches(satisfies: (Json, string) -> bool, version: Json, range: Option<string>) {
    var r := RangeValue(range);
    !Truthy(r) || satisfies(version, r.s)
  }

  // ---------------------------------------------------------------------------------------

  /** Prepending a character to the first part prepends it to the joined string. */
  lemma JoinConsFirst(c: char, first: string, tail: seq<string>)
    ensures JoinWithAt([[c] + first] + tail) == [c] + JoinWithAt([first] + tail)
  {
    var q := [[c] + first] + tail;
    var p := [first] + tail;
    assert q[1..] == tail && p[1..] == tail;
    if tail != [] {
      var rest := JoinWithAt(tail);
      assert JoinWithAt(q) == ([c] + first) + "@" + rest;
      assert JoinWithAt(p) == first + "@" + rest;
      assert ([c] + first) + "@" + rest == [c] + (first + "@" + rest);
    }
  }

  /** Putting an empty part in front prepends an '@' to the joined string. */
  lemma JoinEmptyFirst(parts: seq<string>)
    requires |parts| >= 1
    ensures JoinWithAt([""] + parts) == "@" + JoinWithAt(parts)
  {
    var q := [""] + parts;
    assert q[0] == "" && q[1..] == parts;
  }

  /** Joining the parts of a split at every '@' gives back the string. */
  lemma {:induction false} SplitAtSignsJoin(s: string)
    ensures JoinWithAt(SplitAtSigns(s)) == s
  {
    if s != [] {
      var rest := SplitAtSigns(s[1..]);
      SplitAtSignsJoin(s[1..]);
      assert s == [s[0]] + s[1..];
      if s[0] == '@' {
        JoinEmptyFirst(rest);
      } else {
        assert rest == [rest[0]] + rest[1..];
        JoinConsFirst(s[0], rest[0], rest[1..]);
      }
    }
  }

  /** No part of a split at every '@' holds an '@'. */
  lemma {:induction false} SplitAtSignsNoAt(s: string)
    ensures forall i :: 0 <= i < |SplitAtSigns(s)| ==> NoAt(SplitAtSigns(s)[i])
  {
    if s != [] {
      var rest := SplitAtSigns(s[1..]);
      SplitAtSignsNoAt(s[1..]);
      var parts := SplitAtSigns(s);
      if s[0] == '@' {
        assert forall i :: 1 <= i < |parts| ==> parts[i] == rest[i - 1];
      } else {
        var first := [s[0]] + rest[0];
        assert parts[0] == first;
        assert NoAt(first) by {
          assert NoAt(rest[0]);
          assert forall k :: 1 <= k < |first| ==> first[k] == rest[0][k - 1];
        }
        assert forall i :: 1 <= i < |parts| ==> parts[i] == rest[i];
      }
    }
  }

  /** Joining the parts with '@' gives back the expression, the parts have the shape of a
      split at every non-initial '@', and a leading '@' (a scope) stays in the name part. */
  lemma ParseVersionExpressionJoin(expr: string)
    ensures JoinWithAt(ParseVersionExpression(expr)) == expr
    ensures WellSplit(ParseVersionExpression(expr))
    ensures expr != [] ==> RuleName(expr) != [] && RuleName(expr)[0] == expr[0]
  {
    if expr != [] {
      var rest := SplitAtSigns(expr[1..]);
      SplitAtSignsJoin(expr[1..]);
      SplitAtSignsNoAt(expr[1..]);
      assert rest == [rest[0]] + rest[1..];
      JoinConsFirst(expr[0], rest[0], rest[1..]);
      assert expr == [expr[0]] + expr[1..];
      var parts := ParseVersionExpression(expr);
      var first := [expr[0]] + rest[0];
      assert parts[0] == first;
      assert forall k :: 0 < k < |first| ==> first[k] == rest[0][k - 1];
      assert NoAt(rest[0]);
      assert forall i :: 1 <= i < |parts| ==> parts[i] == rest[i];
    }
  }

  lemma {:induction false} SplitAtSignsOfPrefix(w: string, tail: string)
    requires NoAt(w)
    ensures SplitAtSigns(w + "@" + tail) == [w] + SplitAtSigns(tail)
    ensures SplitAtSigns(w) == [w]
  {
    if w == [] {
      assert w + "@" + tail == ['@'] + tail;
      assert (['@'] + tail)[1..] == tail;
    } else {
      assert (w + "@" + tail)[1..] == w[1..] + "@" + tail;
      SplitAtSignsOfPrefix(w[1..], tail);
      assert [w[0]] + w[1..] == w;
    }
  }

  /** A split at every '@' is the only way to cut a string into '@'-free parts that join
      back to it. */
  lemma {:induction false} SplitAtSignsUnique(s: string, parts: seq<string>)
    requires |parts| >= 1 && JoinWithAt(parts) == s
    requires forall i :: 0 <= i < |parts| ==> NoAt(parts[i])
    ensures SplitAtSigns(s) == parts
    decreases |parts|
  {
    if |parts| == 1 {
      SplitAtSignsOfPrefix(parts[0], "");
    } else {
      SplitAtSignsUnique(JoinWithAt(parts[1..]), parts[1..]);
      SplitAtSignsOfPrefix(parts[0], JoinWithAt(parts[1..]));
    }
  }

  /** ParseVersionExpression is the only well-split decomposition of the expression: it
      splits at every '@' except one at index 0, and nowhere else. */
  lemma ParseVersionExpressionUnique(expr: string, parts: seq<string>)
    requires WellSplit(parts) && JoinWithAt(parts) == expr
    ensures ParseVersionExpression(expr) == parts
  {
    if parts[0] == [] {
      assert expr == [];
    } else {
      var first := parts[0];
      var tailParts := [first[1..]] + parts[1..];
      assert NoAt(first[1..]) by {
        forall k | 0 <= k < |first[1..]| ensures first[1..][k] != '@' {
          assert first[1..][k] == first[k + 1];
        }
      }
      assert JoinWithAt(tailParts) == expr[1..] by {
        if |parts| == 1 {
          assert expr == first;
        } else {
          assert tailParts[1..] == parts[1..];
          assert expr == first + "@" + JoinWithAt(parts[1..]);
          assert first == [first[0]] + first[1..];
        }
      }
      SplitAtSignsUnique(expr[1..], tailParts);
      assert expr[0] == first[0];
      assert [first[0]] + first[1..] == first;
    }
  }

  /** An expression with no '@' after index 0 has a single part and therefore no range. */
  lemma SinglePartHasNoRange(expr: string)
    ensures (forall k :: 0 < k < |expr| ==> expr[k] != '@') <==> |ParseVersionExpression(expr)| == 1
    ensures |ParseVersionExpression(expr)| == 1 <==> RuleRange(expr) == None
  {
    ParseVersionExpressionJoin(expr);
    var parts := ParseVersionExpression(expr);
    if forall k :: 0 < k < |expr| ==> expr[k] != '@' {
      ParseVersionExpressionUnique(expr, [expr]);
    }
  }

  /** A range that is absent or empty matches every version; any other range matches
      exactly the versions that satisfy it. */
  lemma VersionMatchesMeaning(satisfies: (Json, string) -> bool, version: Json, range: Option<string>)
    ensures range == None || range == Some("") ==> VersionMatches(satisfies, version, range)
    ensures range.Some? && range.value != "" ==>
      (VersionMatches(satisfies, version, range) <==> satisfies(version, range.value))
  {
  }
}
