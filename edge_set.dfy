/**
 * The ordered set `std::set<std::pair<rule_id, node_id>>` that holds the taken
 * transitions of a node. It is modelled as a strictly increasing sequence under
 * the order std::pair and std::string use: lexicographic on the rule name, then
 * on the node id. Iterating the std::set visits the sequence from left to right.
 */
module EdgeSet {

  /** `rule_id` is a std::string. */
  type Rule = string

  /** A transition `(rule, node)` as stored in `taken_transitions`. */
  type Edge = (Rule, nat)

  /** std::string's `operator<`: lexicographic, a proper prefix first. */
  predicate StrLess(a: string, b: string)
    decreases |a|
  {
    |b| > 0 && (|a| == 0 || a[0] < b[0] || (a[0] == b[0] && StrLess(a[1..], b[1..])))
  }

  lemma {:induction false} StrLessIrreflexive(a: string)
    ensures !StrLess(a, a)
    decreases |a|
  {
    if |a| > 0 {
      StrLessIrreflexive(a[1..]);
    }
  }

  lemma {:induction false} StrLessTransitive(a: string, b: string, c: string)
    requires StrLess(a, b) && StrLess(b, c)
    ensures StrLess(a, c)
    decreases |a|
  {
    if |a| > 0 && a[0] == b[0] && b[0] == c[0] {
      StrLessTransitive(a[1..], b[1..], c[1..]);
    }
  }

  lemma {:induction false} StrLessTotal(a: string, b: string)
    ensures a == b || StrLess(a, b) || StrLess(b, a)
    decreases |a|
  {
    if |a| > 0 && |b| > 0 && a[0] == b[0] {
      StrLessTotal(a[1..], b[1..]);
      if a[1..] == b[1..] {
        assert a == [a[0]] + a[1..] && b == [b[0]] + b[1..];
      }
    }
  }

  /** std::pair's `operator<` over (rule, node). */
  predicate EdgeLess(x: Edge, y: Edge) {
    StrLess(x.0, y.0) || (x.0 == y.0 && x.1 < y.1)
  }

  lemma EdgeLessIrreflexive(x: Edge)
    ensures !EdgeLess(x, x)
  {
    StrLessIrreflexive(x.0);
  }

  lemma EdgeLessTransitive(x: Edge, y: Edge, z: Edge)
    requires EdgeLess(x, y) && EdgeLess(y, z)
    ensures EdgeLess(x, z)
  {
    if StrLess(x.0, y.0) && StrLess(y.0, z.0) {
      StrLessTransitive(x.0, y.0, z.0);
    }
  }

  lemma EdgeLessTotal(x: Edge, y: Edge)
    ensures x == y || EdgeLess(x, y) || EdgeLess(y, x)
  {
    StrLessTotal(x.0, y.0);
  }

  /** The sequence lists a set in iteration order: strictly increasing. */
  predicate Sorted(s: seq<Edge>) {
    forall i, j :: 0 <= i < j < |s| ==> EdgeLess(s[i], s[j])
  }

  /** `std::set::emplace`: adds `x` at its place in the order; a present element leaves the set as it was. */
  function Insert(s: seq<Edge>, x: Edge): (r: seq<Edge>)
    ensures forall e :: e in r <==> e in s || e == x
    ensures x !in s ==> |r| == |s| + 1
    decreases |s|
  {
    if s == [] then [x]
    else if x == s[0] then s
    else if EdgeLess(x, s[0]) then [x] + s
    else
      assert x !in s ==> x !in s[1..];
      [s[0]] + Insert(s[1..], x)
  }

  /** Inserting into a sorted sequence keeps it sorted, and inserting a present element changes nothing. */
  lemma {:induction false} InsertSorted(s: seq<Edge>, x: Edge)
    requires Sorted(s)
    ensures Sorted(Insert(s, x))
    ensures x in s ==> Insert(s, x) == s
    decreases |s|
  {
    if s == [] || x == s[0] {
    } else if EdgeLess(x, s[0]) {
      InsertFrontSorted(s, x);
      EdgeLessIrreflexive(x);
      forall j | 0 <= j < |s|
        ensures s[j] != x
      {
        assert ([x] + s)[0] == x && ([x] + s)[j + 1] == s[j];
        assert EdgeLess(x, s[j]);
      }
    } else {
      InsertSorted(s[1..], x);
      var rest := Insert(s[1..], x);
      EdgeLessTotal(x, s[0]);
      assert x in s ==> x in s[1..];
      ConsSorted(s[0], rest);
    }
  }

  /** A smallest element in front of a sorted sequence keeps it sorted. */
  lemma InsertFrontSorted(s: seq<Edge>, x: Edge)
    requires Sorted(s) && s != [] && EdgeLess(x, s[0])
    ensures Sorted([x] + s)
  {
    forall j | 0 < j < |s|
      ensures EdgeLess(x, s[j])
    {
      EdgeLessTransitive(x, s[0], s[j]);
    }
  }

  lemma ConsSorted(y: Edge, rest: seq<Edge>)
    requires Sorted(rest) && forall e :: e in rest ==> EdgeLess(y, e)
    ensures Sorted([y] + rest)
  {
    var r := [y] + rest;
    forall i, j | 0 <= i < j < |r|
      ensures EdgeLess(r[i], r[j])
    {
      if i > 0 {
        assert r[i] == rest[i - 1] && r[j] == rest[j - 1];
      } else {
        assert r[j] in rest;
      }
    }
  }

}
