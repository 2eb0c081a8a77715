/**
 * A corrected admission for the undo cycle of `UndoCycle`. The admission check
 * as written (src/logifix.cpp:236-247) lets a rewrite undo its parent's rewrite,
 * so `taken_transitions` can close a cycle and `get_recursive_merge_result_for_node`
 * (84-92) would recurse forever. The correction refuses, before the check, every
 * candidate whose id is not newer than the current node's; ids are handed out in
 * order, so every taken transition then leads to a newer node, and the graph stays
 * acyclic with a rank the resolver can recurse on.
 */
module OrderedAdmission {
  import opened Wrappers
  import opened EdgeSet
  import opened Nway
  import opened Collaborators
  import opened Exploration
  import opened Resolver

  /** One corrected admission pass: a candidate not newer than `current` is refused; any other goes through the check as written. */
  function AdmitOneOrdered(ext: Externals, s: State, current: nat, next: nat, rule: Rule): (r: State)
    ensures Skipped(s, r, current) || (current < next && Took(s, r, current, next, rule))
    ensures forall n :: n != current ==> TakenOf(r, n) == TakenOf(s, n)
    ensures r.taken.Keys <= s.taken.Keys + {current}
    ensures StoreValid(s) ==> StoreValid(r) && StoreExtends(s, r)
  {
    if current < next then AdmitOne(ext, s, current, next, rule) else s
  }

  /** The corrected admission loop over `next_nodes`, in order. */
  function AdmitOrdered(ext: Externals, s: State, current: nat, nexts: seq<(nat, Rule)>): State
    decreases |nexts|
  {
    if nexts == [] then s
    else AdmitOneOrdered(ext, AdmitOrdered(ext, s, current, nexts[..|nexts| - 1]), current, nexts[|nexts| - 1].0, nexts[|nexts| - 1].1)
  }

  /** One worker iteration with the corrected admission. */
  function StepOrdered(ext: Externals, s: State): (r: Option<State>)
    ensures r.None? <==> s.pendingStrings == [] && s.pendingFiles == []
  {
    match Acquire(s)
    case None => None
    case Some(a) =>
      var current := a.1;
      var rec := Record(a.0, current, ext.analyze(TextOf(a.0, current)));
      Some(AdmitOrdered(ext, rec.0, current, rec.1))
  }

  /** The sequential run with the corrected admission. */
  function RunOrdered(ext: Externals, s: State, fuel: nat): State {
    Iterate(p => StepOrdered(ext, p), s, fuel)
  }

  /** Every taken transition leads to a newer, known node. */
  ghost predicate Forward(s: State) {
    forall n, e :: n in s.taken && e in s.taken[n] ==> n < e.1 && e.1 in s.nodeToFile
  }

  ghost predicate OrderedInv(s: State) {
    StoreValid(s) && Forward(s)
  }

  /** The rank of a node: how many ids the store has handed out after it. */
  function StoreRank(s: State): nat -> nat {
    n => if n < |s.fileToNode| then |s.fileToNode| - n else 0
  }

  /** Under the corrected invariant the rank decreases along every taken transition, so `Resolve` is defined at every node. */
  lemma ForwardRanked(s: State)
    requires OrderedInv(s)
    ensures Ranked(s, StoreRank(s))
  {
    forall n, k | n in s.taken && 0 <= k < |s.taken[n]|
      ensures StoreRank(s)(s.taken[n][k].1) < StoreRank(s)(n)
    {
      assert s.taken[n][k] in s.taken[n];
    }
  }

  /** `add_file` keeps the corrected invariant. */
  lemma AddFileOrdered(s: State, t: Text)
    requires OrderedInv(s)
    ensures OrderedInv(AddFile(s, t).0)
  {
    InternRoundTrip(s, t);
    var r := AddFile(s, t).0;
    assert StoreExtends(s, Intern(s, t).0);
    assert r.taken == s.taken;
  }

  /** One corrected admission pass keeps the invariant and only grows the store. */
  lemma AdmitOneOrderedKeeps(ext: Externals, s: State, current: nat, next: nat, rule: Rule)
    requires OrderedInv(s) && next in s.nodeToFile
    ensures OrderedInv(AdmitOneOrdered(ext, s, current, next, rule))
    ensures StoreExtends(s, AdmitOneOrdered(ext, s, current, next, rule))
  {
    var r := AdmitOneOrdered(ext, s, current, next, rule);
    forall n, e | n in r.taken && e in r.taken[n]
      ensures n < e.1 && e.1 in r.nodeToFile
    {
      assert e in TakenOf(r, n);
      if n != current || Skipped(s, r, current) {
        assert e in TakenOf(s, n);
      } else {
        assert e in TakenOf(s, current) || e == (rule, next);
      }
    }
  }

  /** The corrected admission loop keeps the invariant and only grows the store. */
  lemma {:induction false} AdmitOrderedKeeps(ext: Externals, s: State, current: nat, nexts: seq<(nat, Rule)>)
    requires OrderedInv(s) && forall i :: 0 <= i < |nexts| ==> nexts[i].0 in s.nodeToFile
    ensures OrderedInv(AdmitOrdered(ext, s, current, nexts))
    ensures StoreExtends(s, AdmitOrdered(ext, s, current, nexts))
    decreases |nexts|
  {
    if nexts != [] {
      var init := nexts[..|nexts| - 1];
      var last := nexts[|nexts| - 1];
      AdmitOrderedKeeps(ext, s, current, init);
      var prev := AdmitOrdered(ext, s, current, init);
      AdmitOneOrderedKeeps(ext, prev, current, last.0, last.1);
      StoreExtendsTrans(s, prev, AdmitOneOrdered(ext, prev, current, last.0, last.1));
    }
  }

  /** A corrected worker iteration keeps the invariant. */
  lemma StepOrderedKeeps(ext: Externals, s: State)
    requires OrderedInv(s) && StepOrdered(ext, s).Some?
    ensures OrderedInv(StepOrdered(ext, s).value)
  {
    var a := Acquire(s).value;
    var current := a.1;
    var rw := ext.analyze(TextOf(a.0, current));
    var rec := Record(a.0, current, rw);
    assert a.0.taken == s.taken && a.0.nodeToFile == s.nodeToFile && a.0.fileToNode == s.fileToNode;
    RecordStore(a.0, current, rw);
    forall i | 0 <= i < |rec.1|
      ensures rec.1[i].0 in rec.0.nodeToFile
    {
      RecordCandidate(a.0, current, rw, i);
    }
    AdmitOrderedKeeps(ext, rec.0, current, rec.1);
  }

  /** Every corrected run from a state with the invariant ends in one where the resolver is defined. */
  lemma RunOrderedRanked(ext: Externals, s: State, fuel: nat)
    requires OrderedInv(s)
    ensures OrderedInv(RunOrdered(ext, s, fuel))
    ensures Ranked(RunOrdered(ext, s, fuel), StoreRank(RunOrdered(ext, s, fuel)))
  {
    forall x | OrderedInv(x) && StepOrdered(ext, x).Some?
      ensures OrderedInv(StepOrdered(ext, x).value)
    {
      StepOrderedKeeps(ext, x);
    }
    IterateKeeps(p => StepOrdered(ext, p), x => OrderedInv(x), s, fuel);
    ForwardRanked(RunOrdered(ext, s, fuel));
  }

  /** `add_file` for each seed in turn. */
  function AddFiles(s: State, seeds: seq<Text>): State
    decreases |seeds|
  {
    if seeds == [] then s else AddFile(AddFiles(s, seeds[..|seeds| - 1]), seeds[|seeds| - 1]).0
  }

  /**
   * The corrected engine keeps `taken_transitions` acyclic: after the seeds are added
   * and any number of corrected iterations, the rank decreases along every taken
   * transition, so the resolver's recursion ends at every node.
   */
  lemma {:induction false} SeededRanked(ext: Externals, seeds: seq<Text>, fuel: nat)
    ensures OrderedInv(AddFiles(Initial, seeds))
    ensures var r := RunOrdered(ext, AddFiles(Initial, seeds), fuel); Ranked(r, StoreRank(r))
    decreases |seeds|
  {
    if seeds != [] {
      SeededRanked(ext, seeds[..|seeds| - 1], fuel);
      AddFileOrdered(AddFiles(Initial, seeds[..|seeds| - 1]), seeds[|seeds| - 1]);
    }
    RunOrderedRanked(ext, AddFiles(Initial, seeds), fuel);
  }
}
