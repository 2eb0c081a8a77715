/**
 * The splice in `get_patches` (src/logifix.cpp:295-320): every `rewrite` tuple
 * `(rule, file, start, end, replacement)` the analysis derives becomes the text
 * `source.substr(0, start) + replacement + source.substr(end)`, and the results are
 * collected in a `std::set`. `start` and `end` are C++ `int`s handed to
 * `std::string::substr`, which takes `size_t`; the model spells out what that does.
 */
module Patches {
  import opened Wrappers
  import opened EdgeSet
  import opened Nway

  /** A 32-bit C++ `int`. */
  newtype int32 = x: int | -0x8000_0000 <= x < 0x8000_0000

  /** One tuple of the `rewrite` relation (the file name is always the one file of the program). */
  datatype Rewrite = Rewrite(rule: Rule, start: int32, end: int32, replacement: Text)

  /**
   * How many characters `source.substr(0, start)` keeps: `start` converted to
   * `size_t` and clamped to the length. A negative `start` wraps to a huge count,
   * so the whole source is kept.
   */
  function PrefixLength(source: Text, start: int32): (n: nat)
    ensures n <= |source|
    ensures 0 <= start as int <= |source| ==> n == start as int
  {
    if start < 0 || start as int > |source| then |source| else start as int
  }

  /**
   * The rewritten source, or nothing where `source.substr(end)` throws
   * `std::out_of_range`: `end` past the end, or negative (it wraps to a huge position).
   */
  function Splice(source: Text, rw: Rewrite): (r: Option<Text>)
    ensures r.None? <==> rw.end < 0 || rw.end as int > |source|
  {
    if rw.end < 0 || rw.end as int > |source| then None
    else Some(source[..PrefixLength(source, rw.start)] + rw.replacement + source[rw.end..])
  }

  /** A well-formed range: `0 <= start <= end <= |source|`. */
  predicate InRange(source: Text, rw: Rewrite) {
    0 <= rw.start <= rw.end && rw.end as int <= |source|
  }

  /**
   * On a well-formed range the splice keeps everything before `start` and from
   * `end` on, and puts the replacement in between.
   */
  lemma SpliceKeepsOutside(source: Text, rw: Rewrite)
    requires InRange(source, rw)
    ensures Splice(source, rw).Some?
    ensures var r := Splice(source, rw).value;
      var tail := |source| - rw.end as int;
      |r| == |source| - (rw.end - rw.start) as int + |rw.replacement| &&
      r[..rw.start] == source[..rw.start] &&
      r[rw.start..rw.start as int + |rw.replacement|] == rw.replacement &&
      r[|r| - tail..] == source[rw.end..]
  {
    var r := Splice(source, rw).value;
    var p := source[..rw.start];
    assert r == p + rw.replacement + source[rw.end..];
    assert (p + rw.replacement + source[rw.end..])[..rw.start] == p;
  }

  /** Replacing a range by its own content gives back the source. */
  lemma SpliceSameText(source: Text, rw: Rewrite)
    requires InRange(source, rw) && rw.replacement == source[rw.start..rw.end]
    ensures Splice(source, rw) == Some(source)
  {
    assert source == source[..rw.start] + source[rw.start..rw.end] + source[rw.end..];
  }

  /** `source.substr(0, start)` with a negative `start` keeps the whole source, so the text grows. */
  lemma SpliceNegativeStart(source: Text, rw: Rewrite)
    requires rw.start < 0 && 0 <= rw.end as int <= |source|
    ensures Splice(source, rw) == Some(source + rw.replacement + source[rw.end..])
  {
    assert source[..|source|] == source;
  }

  /** The result set of `get_patches` over the tuples in `rws`, or nothing if a splice throws. */
  function PatchSet(source: Text, rws: seq<Rewrite>): Option<set<(Rule, Text)>>
    decreases |rws|
  {
    if rws == [] then Some({})
    else
      var last := rws[|rws| - 1];
      match PatchSet(source, rws[..|rws| - 1])
      case None => None
      case Some(before) =>
        match Splice(source, last)
        case None => None
        case Some(t) => Some(before + {(last.rule, t)})
  }

  /** The loop of `get_patches` that extracts the rewrites into a set. */
  method GetPatches(source: Text, rws: seq<Rewrite>) returns (r: Option<set<(Rule, Text)>>)
    ensures r == PatchSet(source, rws)
  {
    var rewrites: set<(Rule, Text)> := {};
    for k := 0 to |rws|
      invariant PatchSet(source, rws[..k]) == Some(rewrites)
    {
      assert rws[..k + 1][..k] == rws[..k];
      var rw := rws[k];
      if rw.end < 0 || rw.end as int > |source| {
        PatchSetFails(source, rws, k);
        return None;
      }
      var prefix := source[..PrefixLength(source, rw.start)];
      rewrites := rewrites + {(rw.rule, prefix + rw.replacement + source[rw.end..])};
    }
    assert rws[..|rws|] == rws;
    return Some(rewrites);
  }

  /** One tuple whose splice throws makes the whole extraction throw. */
  lemma {:induction false} PatchSetFails(source: Text, rws: seq<Rewrite>, k: nat)
    requires k < |rws| && Splice(source, rws[k]).None?
    ensures PatchSet(source, rws).None?
    decreases |rws|
  {
    if k < |rws| - 1 {
      assert rws[..|rws| - 1][k] == rws[k];
      PatchSetFails(source, rws[..|rws| - 1], k);
    }
  }

  /** The extraction succeeds when every tuple's `end` is in range. */
  lemma {:induction false} PatchSetSucceeds(source: Text, rws: seq<Rewrite>)
    requires forall k :: 0 <= k < |rws| ==> Splice(source, rws[k]).Some?
    ensures PatchSet(source, rws).Some?
    decreases |rws|
  {
    if rws != [] {
      var init := rws[..|rws| - 1];
      assert forall k :: 0 <= k < |init| ==> init[k] == rws[k];
      PatchSetSucceeds(source, init);
    }
  }

  /** The text a tuple is spliced into, where the splice does not throw. */
  function Patch(source: Text, rw: Rewrite): (Rule, Text)
    requires Splice(source, rw).Some?
  {
    (rw.rule, Splice(source, rw).value)
  }

  /** Every entry of the result set comes from some tuple. */
  lemma {:induction false} PatchSetSound(source: Text, rws: seq<Rewrite>, p: (Rule, Text))
    requires PatchSet(source, rws).Some? && p in PatchSet(source, rws).value
    ensures exists k :: 0 <= k < |rws| && Splice(source, rws[k]).Some? && p == Patch(source, rws[k])
    decreases |rws|
  {
    var init := rws[..|rws| - 1];
    var last := rws[|rws| - 1];
    var before := PatchSet(source, init).value;
    if p in before {
      PatchSetSound(source, init, p);
      var k :| 0 <= k < |init| && Splice(source, init[k]).Some? && p == Patch(source, init[k]);
      assert rws[k] == init[k];
    } else {
      assert p == Patch(source, rws[|rws| - 1]);
    }
  }

  /** Every tuple's splice is in the result set. */
  lemma {:induction false} PatchSetComplete(source: Text, rws: seq<Rewrite>, k: nat)
    requires PatchSet(source, rws).Some? && k < |rws|
    ensures Splice(source, rws[k]).Some? && Patch(source, rws[k]) in PatchSet(source, rws).value
    decreases |rws|
  {
    var init := rws[..|rws| - 1];
    if k < |init| {
      assert init[k] == rws[k];
      PatchSetComplete(source, init, k);
    }
  }

  /** The result set has at most one entry per tuple: equal entries collapse. */
  lemma {:induction false} PatchSetSize(source: Text, rws: seq<Rewrite>)
    requires PatchSet(source, rws).Some?
    ensures |PatchSet(source, rws).value| <= |rws|
    decreases |rws|
  {
    if rws != [] {
      var init := rws[..|rws| - 1];
      var last := rws[|rws| - 1];
      PatchSetSize(source, init);
      var before := PatchSet(source, init).value;
      assert |before + {Patch(source, last)}| <= |before| + 1;
    }
  }

  /** Two tuples that yield the same rule and the same text give one entry. */
  lemma DuplicatesCollapse(source: Text, a: Rewrite, b: Rewrite)
    requires Splice(source, a).Some? && Splice(source, a) == Splice(source, b) && a.rule == b.rule
    ensures PatchSet(source, [a, b]) == PatchSet(source, [a])
  {
    assert [a, b][..1] == [a];
    assert [a][..0] == [];
  }
}
