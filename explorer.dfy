/**
 * The exploration engine of src/logifix.cpp as the source keeps it: global maps
 * and deques updated in place. Each method is proved to perform exactly the state
 * change that the functions of module `Exploration` (and `Resolver`) specify, so the
 * lemmas proved there carry over to the in-place code.
 */
module Explorer {
  import opened Wrappers
  import opened EdgeSet
  import opened Nway
  import opened Collaborators
  import opened Compose
  import opened Exploration
  import opened Resolver

  class Engine {
    /** The analyzer, lexer and differ the engine calls. */
    const ext: Externals

    var fileToNode: map<Text, nat>
    var nodeToFile: map<nat, Text>
    var pendingFiles: seq<nat>
    var pendingStrings: seq<nat>
    var parent: map<nat, (Rule, nat)>
    var children: map<nat, map<Rule, set<nat>>>
    var taken: map<nat, seq<Edge>>

    /** The engine's globals as one value. */
    function Snapshot(): State
      reads this
    {
      State(fileToNode, nodeToFile, pendingFiles, pendingStrings, parent, children, taken)
    }

    ghost predicate Valid()
      reads this
    {
      Inv(Snapshot()) && Contract(ext)
    }

    constructor(ext: Externals)
      requires Contract(ext)
      ensures this.ext == ext && Snapshot() == Initial && Valid()
    {
      this.ext := ext;
      fileToNode := map[];
      nodeToFile := map[];
      pendingFiles := [];
      pendingStrings := [];
      parent := map[];
      children := map[];
      taken := map[];
      new;
      InitialInv();
    }

    /** `string_to_node_id` (src/logifix.cpp:65-73). */
    method StringToNodeId(t: Text) returns (id: nat)
      modifies this
      ensures (Snapshot(), id) == Intern(old(Snapshot()), t)
      ensures old(Valid()) ==> Valid()
    {
      ghost var before := Snapshot();
      if t in fileToNode {
        id := fileToNode[t];
      } else {
        id := |fileToNode|;
        fileToNode := fileToNode[t := id];
        nodeToFile := nodeToFile[id := t];
      }
      if Inv(before) {
        InternKeepsInv(before, t);
      }
    }

    /** `add_file` (src/logifix.cpp:75-79). */
    method AddFile(t: Text) returns (id: nat)
      modifies this
      ensures (Snapshot(), id) == Exploration.AddFile(old(Snapshot()), t)
      ensures old(Valid()) ==> Valid()
    {
      ghost var before := Snapshot();
      id := StringToNodeId(t);
      pendingFiles := [id] + pendingFiles;
      if Inv(before) {
        AddFileKeepsInv(before, t);
      }
    }

    /** The work-acquire block of a worker (src/logifix.cpp:163-191), without the waiting. */
    method AcquireWork() returns (current: Option<nat>)
      modifies this
      ensures Acquire(old(Snapshot())).None? ==> current.None? && Snapshot() == old(Snapshot())
      ensures Acquire(old(Snapshot())).Some? ==>
        current == Some(Acquire(old(Snapshot())).value.1) && Snapshot() == Acquire(old(Snapshot())).value.0
      ensures old(Valid()) ==> Valid()
    {
      if pendingStrings == [] && pendingFiles == [] {
        return None;
      }
      ghost var before := Snapshot();
      if pendingStrings == [] {
        current := Some(pendingFiles[0]);
        pendingFiles := pendingFiles[1..];
      } else {
        current := Some(pendingStrings[0]);
        pendingStrings := pendingStrings[1..];
      }
      if Inv(before) {
        AcquireKeepsInv(before);
      }
    }

    /** The recording loop (src/logifix.cpp:197-205); returns `next_nodes`. */
    method RecordRewrites(current: nat, rewrites: seq<(Rule, Text)>) returns (nexts: seq<(nat, Rule)>)
      modifies this
      ensures (Snapshot(), nexts) == Record(old(Snapshot()), current, rewrites)
    {
      nexts := [];
      for k := 0 to |rewrites|
        invariant (Snapshot(), nexts) == Record(old(Snapshot()), current, rewrites[..k])
      {
        assert rewrites[..k + 1][..k] == rewrites[..k];
        var rule := rewrites[k].0;
        ghost var pre := Snapshot();
        var id := StringToNodeId(rewrites[k].1);
        parent := parent[id := (rule, current)];
        var kids := if current in children then children[current] else map[];
        children := children[current := AddKid(kids, rule, id)];
        nexts := nexts + [(id, rule)];
        assert (Snapshot(), id) == RecordOne(pre, current, rule, rewrites[k].1);
      }
      assert rewrites[..|rewrites|] == rewrites;
    }

    /** The admission loop (src/logifix.cpp:207-247). */
    method AdmitCandidates(current: nat, nexts: seq<(nat, Rule)>)
      modifies this
      requires Contract(ext)
      ensures Snapshot() == Admit(ext, old(Snapshot()), current, nexts)
    {
      for k := 0 to |nexts|
        invariant Snapshot() == Admit(ext, old(Snapshot()), current, nexts[..k])
      {
        assert nexts[..k + 1][..k] == nexts[..k];
        var next := nexts[k].0;
        var rule := nexts[k].1;
        ghost var before := Snapshot();
        var takeTransition := true;
        if current in parent {
          var pid := parent[current].1;
          var parentSrc := TextOf(Snapshot(), pid);
          var currSrc := TextOf(Snapshot(), current);
          var nextSrc := TextOf(Snapshot(), next);
          var diff := ext.tokenDiff(ext.lex(parentSrc), [ext.lex(currSrc), ext.lex(nextSrc)]);
          AdmissionDiffTwoWay(ext, parentSrc, currSrc, nextSrc);
          var result := ComposeSegments(diff);
          var id := StringToNodeId(result);
          if id in KidsOf(Snapshot(), pid, rule) {
            takeTransition := false;
          }
        }
        if takeTransition {
          pendingStrings := pendingStrings + [next];
          taken := taken[current := Insert(TakenOf(Snapshot(), current), (rule, next))];
        }
        assert Snapshot() == AdmitOne(ext, before, current, next, rule);
      }
      assert nexts[..|nexts|] == nexts;
    }

    /** One iteration of a worker: acquire, analyze, record, admit. */
    method Step() returns (worked: bool)
      modifies this
      requires Contract(ext)
      ensures worked <==> Exploration.Step(ext, old(Snapshot())).Some?
      ensures worked ==> Snapshot() == Exploration.Step(ext, old(Snapshot())).value
      ensures !worked ==> Snapshot() == old(Snapshot())
      ensures old(Valid()) ==> Valid()
    {
      ghost var before := Snapshot();
      var c := AcquireWork();
      if c.None? {
        return false;
      }
      if Inv(before) {
        StepKeepsInv(ext, before);
      }
      var current := c.value;
      var source := TextOf(Snapshot(), current);
      var rewrites := ext.analyze(source);
      var nexts := RecordRewrites(current, rewrites);
      AdmitCandidates(current, nexts);
      return true;
    }

    /** `run`, sequentialised: iterate until no work is left, for at most `fuel` iterations. */
    method Run(fuel: nat)
      modifies this
      requires Valid()
      ensures Valid()
      ensures Snapshot() == Exploration.Run(ext, old(Snapshot()), fuel)
    {
      var done := 0;
      while done < fuel
        invariant done <= fuel && Inv(Snapshot())
        invariant Snapshot() == Exploration.Run(ext, old(Snapshot()), done)
      {
        ghost var before := Snapshot();
        var worked := Step();
        if !worked {
          RunStuck(ext, old(Snapshot()), done, fuel);
          return;
        }
        done := done + 1;
      }
    }

    /** `get_recursive_merge_result_for_node` (src/logifix.cpp:81-111). */
    method GetRecursiveMergeResult(node: nat, ghost rank: nat -> nat) returns (r: Option<Text>)
      requires Ranked(Snapshot(), rank)
      ensures r == Resolve(ext, Snapshot(), rank, node)
      decreases rank(node)
    {
      var es := TakenOf(Snapshot(), node);
      TakenBelow(Snapshot(), rank, node);
      if es == [] {
        return Some(TextOf(Snapshot(), node));
      }
      if |es| == 1 {
        r := GetRecursiveMergeResult(es[0].1, rank);
        return;
      }
      var toBeMerged := [];
      for k := 0 to |es|
        invariant toBeMerged == Survivors(ext, Snapshot(), rank, node, es[..k])
      {
        assert es[..k + 1][..k] == es[..k];
        var result := GetRecursiveMergeResult(es[k].1, rank);
        if result.Some? {
          toBeMerged := toBeMerged + [result.value];
        }
      }
      assert es[..|es|] == es;
      var diff := ext.textDiff(TextOf(Snapshot(), node), toBeMerged);
      if ext.hasConflict(diff) {
        return None;
      }
      return Some(ext.merge(diff));
    }

    /**
     * `get_patches_for_file` (src/logifix.cpp:113-128): one `(rule, result)` per
     * recorded candidate of the file's node whose merge result exists. The maps are
     * unordered, so the order is left open; `origins` names the candidate each entry
     * comes from.
     */
    method GetPatchesForFile(file: Text, ghost rank: nat -> nat) returns (rewrites: seq<(Rule, Text)>, ghost origins: seq<(Rule, nat)>)
      modifies this
      requires Ranked(Snapshot(), rank)
      ensures Snapshot() == Intern(old(Snapshot()), file).0
      ensures |origins| == |rewrites|
      ensures forall i, j :: 0 <= i < j < |origins| ==> origins[i] != origins[j]
      ensures forall o :: o in origins <==> o in PatchOrigins(ext, Snapshot(), rank, Intern(old(Snapshot()), file).1)
      ensures forall i :: 0 <= i < |origins| ==>
        Resolve(ext, Snapshot(), rank, origins[i].1).Some? &&
        rewrites[i] == (origins[i].0, Resolve(ext, Snapshot(), rank, origins[i].1).value)
    {
      var node := StringToNodeId(file);
      ghost var s := Snapshot();
      assert s.taken == old(Snapshot()).taken;
      var kids := KidsMap(Snapshot(), node);
      ghost var all := PatchOrigins(ext, s, rank, node);
      rewrites, origins := [], [];
      var rules := kids.Keys;
      while rules != {}
        invariant Snapshot() == s
        invariant rules <= kids.Keys
        invariant |origins| == |rewrites|
        invariant forall i, j :: 0 <= i < j < |origins| ==> origins[i] != origins[j]
        invariant forall o :: o in origins <==> o in all && o.0 !in rules
        invariant forall i :: 0 <= i < |origins| ==>
          Resolve(ext, Snapshot(), rank, origins[i].1).Some? &&
          rewrites[i] == (origins[i].0, Resolve(ext, Snapshot(), rank, origins[i].1).value)
        decreases rules
      {
        var rule :| rule in rules;
        var todo := kids[rule];
        while todo != {}
          invariant Snapshot() == s
          invariant todo <= kids[rule]
          invariant |origins| == |rewrites|
          invariant forall i, j :: 0 <= i < j < |origins| ==> origins[i] != origins[j]
          invariant forall o :: o in origins <==> o in all && (o.0 !in rules || (o.0 == rule && o.1 !in todo))
          invariant forall i :: 0 <= i < |origins| ==>
            Resolve(ext, Snapshot(), rank, origins[i].1).Some? &&
            rewrites[i] == (origins[i].0, Resolve(ext, Snapshot(), rank, origins[i].1).value)
          decreases todo
        {
          var child :| child in todo;
          var result := GetRecursiveMergeResult(child, rank);
          if result.Some? {
            rewrites := rewrites + [(rule, result.value)];
            origins := origins + [(rule, child)];
          }
          todo := todo - {child};
        }
        rules := rules - {rule};
      }
    }
  }
}
