/**
 * `get_recursive_merge_result_for_node` (src/logifix.cpp:81-111) over a finished
 * exploration: follow `taken_transitions` down to the leaves and merge on the way
 * back, and the per-file patch collection of `get_patches_for_file`
 * (src/logifix.cpp:113-128), stated on the state value.
 */
module Resolver {
  import opened Wrappers
  import opened EdgeSet
  import opened Nway
  import opened Collaborators
  import opened Exploration

  /**
   * `rank` strictly decreases along every taken transition, so `taken_transitions`
   * has no cycle. The source does not check this; without it the recursion does
   * not end.
   */
  ghost predicate Ranked(s: State, rank: nat -> nat) {
    forall n, k :: n in s.taken && 0 <= k < |s.taken[n]| ==> rank(s.taken[n][k].1) < rank(n)
  }

  /** Every target in `es` ranks below `n`. */
  ghost predicate Below(es: seq<Edge>, rank: nat -> nat, n: nat) {
    forall k :: 0 <= k < |es| ==> rank(es[k].1) < rank(n)
  }

  lemma TakenBelow(s: State, rank: nat -> nat, n: nat)
    requires Ranked(s, rank)
    ensures Below(TakenOf(s, n), rank, n)
  {
  }

  /**
   * The merge result for node `n`: its own text when it has no taken transition,
   * its single child's result when it has one, and otherwise the merge of the
   * children's results against its text, or nothing if they conflict.
   */
  function Resolve(ext: Externals, s: State, rank: nat -> nat, n: nat): Option<Text>
    requires Ranked(s, rank)
    decreases rank(n), 1, 0
  {
    var es := TakenOf(s, n);
    TakenBelow(s, rank, n);
    if es == [] then Some(TextOf(s, n))
    else if |es| == 1 then Resolve(ext, s, rank, es[0].1)
    else
      var d := ext.textDiff(TextOf(s, n), Survivors(ext, s, rank, n, es));
      if ext.hasConflict(d) then None else Some(ext.merge(d))
  }

  /** `to_be_merged`: the results of the transitions in `es`, in set order, with the failed ones dropped. */
  function Survivors(ext: Externals, s: State, rank: nat -> nat, n: nat, es: seq<Edge>): (r: seq<Text>)
    requires Ranked(s, rank) && Below(es, rank, n)
    ensures |r| <= |es|
    decreases rank(n), 0, |es|
  {
    if es == [] then []
    else
      var before := Survivors(ext, s, rank, n, es[..|es| - 1]);
      match Resolve(ext, s, rank, es[|es| - 1].1)
      case None => before
      case Some(t) => before + [t]
  }

  /** Every survivor is the result of some transition in `es`. */
  lemma {:induction false} SurvivorsSound(ext: Externals, s: State, rank: nat -> nat, n: nat, es: seq<Edge>, t: Text)
    requires Ranked(s, rank) && Below(es, rank, n)
    requires t in Survivors(ext, s, rank, n, es)
    ensures exists k :: 0 <= k < |es| && Resolve(ext, s, rank, es[k].1) == Some(t)
    decreases |es|
  {
    var init := es[..|es| - 1];
    var before := Survivors(ext, s, rank, n, init);
    if t in before {
      SurvivorsSound(ext, s, rank, n, init, t);
      var k :| 0 <= k < |init| && Resolve(ext, s, rank, init[k].1) == Some(t);
      assert es[k] == init[k];
    } else {
      assert Resolve(ext, s, rank, es[|es| - 1].1) == Some(t);
    }
  }

  /** Every transition in `es` whose result exists contributes that result. */
  lemma {:induction false} SurvivorsComplete(ext: Externals, s: State, rank: nat -> nat, n: nat, es: seq<Edge>, k: nat)
    requires Ranked(s, rank) && Below(es, rank, n)
    requires k < |es| && Resolve(ext, s, rank, es[k].1).Some?
    ensures Resolve(ext, s, rank, es[k].1).value in Survivors(ext, s, rank, n, es)
    decreases |es|
  {
    var init := es[..|es| - 1];
    if k < |init| {
      assert es[k] == init[k];
      SurvivorsComplete(ext, s, rank, n, init, k);
    }
  }

  /** When every transition resolves to `t`, every survivor is `t` and none is dropped. */
  lemma {:induction false} SurvivorsUniform(ext: Externals, s: State, rank: nat -> nat, n: nat, es: seq<Edge>, t: Text)
    requires Ranked(s, rank) && Below(es, rank, n)
    requires forall k :: 0 <= k < |es| ==> Resolve(ext, s, rank, es[k].1) == Some(t)
    ensures |Survivors(ext, s, rank, n, es)| == |es|
    ensures forall i :: 0 <= i < |Survivors(ext, s, rank, n, es)| ==> Survivors(ext, s, rank, n, es)[i] == t
    decreases |es|
  {
    if es != [] {
      var init := es[..|es| - 1];
      assert forall k :: 0 <= k < |init| ==> init[k] == es[k];
      SurvivorsUniform(ext, s, rank, n, init, t);
    }
  }

  /** When every transition fails, nothing survives. */
  lemma {:induction false} SurvivorsNone(ext: Externals, s: State, rank: nat -> nat, n: nat, es: seq<Edge>)
    requires Ranked(s, rank) && Below(es, rank, n)
    requires forall k :: 0 <= k < |es| ==> Resolve(ext, s, rank, es[k].1) == None
    ensures Survivors(ext, s, rank, n, es) == []
    decreases |es|
  {
    if es != [] {
      var init := es[..|es| - 1];
      assert forall k :: 0 <= k < |init| ==> init[k] == es[k];
      SurvivorsNone(ext, s, rank, n, init);
    }
  }

  /** Several transitions that all resolve to the same text merge to that text without conflict. */
  lemma ResolveUnanimous(ext: Externals, s: State, rank: nat -> nat, n: nat, t: Text)
    requires Contract(ext) && Ranked(s, rank)
    requires |TakenOf(s, n)| >= 2
    requires forall k :: 0 <= k < |TakenOf(s, n)| ==> Resolve(ext, s, rank, TakenOf(s, n)[k].1) == Some(t)
    ensures Resolve(ext, s, rank, n) == Some(t)
  {
    var es := TakenOf(s, n);
    TakenBelow(s, rank, n);
    SurvivorsUniform(ext, s, rank, n, es, t);
    var vs := Survivors(ext, s, rank, n, es);
    MergeIdentical(ext, TextOf(s, n), vs);
  }

  /** Several transitions that all fail leave the node's own text: merging nothing reproduces the base. */
  lemma ResolveAllFailed(ext: Externals, s: State, rank: nat -> nat, n: nat)
    requires Contract(ext) && Ranked(s, rank)
    requires |TakenOf(s, n)| >= 2
    requires forall k :: 0 <= k < |TakenOf(s, n)| ==> Resolve(ext, s, rank, TakenOf(s, n)[k].1) == None
    ensures Resolve(ext, s, rank, n) == Some(TextOf(s, n))
  {
    var es := TakenOf(s, n);
    TakenBelow(s, rank, n);
    SurvivorsNone(ext, s, rank, n, es);
    MergeNothing(ext, TextOf(s, n));
  }

  /**
   * A merge result of a branching node contains no detected conflict: the diff of
   * the surviving results against the node's text is conflict-free, and the result
   * is its n-way merge.
   */
  lemma ResolveConflictFree(ext: Externals, s: State, rank: nat -> nat, n: nat)
    requires Contract(ext) && Ranked(s, rank)
    requires |TakenOf(s, n)| >= 2 && Resolve(ext, s, rank, n).Some?
    ensures Below(TakenOf(s, n), rank, n) &&
      var d := ext.textDiff(TextOf(s, n), Survivors(ext, s, rank, n, TakenOf(s, n)));
      !Conflicting(d) && Resolve(ext, s, rank, n).value == Render(Merged(d))
  {
    TakenBelow(s, rank, n);
  }

  /** The exploration never branched: every node took at most one transition. */
  ghost predicate Linear(s: State) {
    forall n :: n in s.taken ==> |s.taken[n]| <= 1
  }

  /** Where a linear exploration starting at `n` ends: follow the single transitions to a node with none. */
  ghost function ChainEnd(s: State, rank: nat -> nat, n: nat): (e: nat)
    requires Ranked(s, rank)
    ensures TakenOf(s, e) == [] || |TakenOf(s, e)| >= 2
    decreases rank(n)
  {
    if |TakenOf(s, n)| == 1 then ChainEnd(s, rank, TakenOf(s, n)[0].1) else n
  }

  /** In a linear exploration the merge result is the text at the end of the chain. */
  lemma {:induction false} ResolveChain(ext: Externals, s: State, rank: nat -> nat, n: nat)
    requires Ranked(s, rank) && Linear(s)
    ensures Resolve(ext, s, rank, n) == Some(TextOf(s, ChainEnd(s, rank, n)))
    decreases rank(n)
  {
    var es := TakenOf(s, n);
    if |es| == 1 {
      ResolveChain(ext, s, rank, es[0].1);
    }
  }

  // ---------------------------------------------------------------------------
  // get_patches_for_file

  /**
   * The `(rule, child)` pairs `get_patches_for_file` reports for `node`: every
   * candidate child recorded under every rule in `children[node]` (not only the
   * taken ones) whose merge result exists.
   */
  ghost function PatchOrigins(ext: Externals, s: State, rank: nat -> nat, node: nat): set<(Rule, nat)>
    requires Ranked(s, rank)
  {
    set rule, child | rule in KidsMap(s, node) && child in KidsMap(s, node)[rule] &&
      Resolve(ext, s, rank, child).Some? :: (rule, child)
  }

}
