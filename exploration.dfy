/**
 * The shared state of the exploration engine in src/logifix.cpp (the globals
 * `file_to_node`, `node_to_file`, `pending_files`, `pending_strings`, `parent`,
 * `children`, `taken_transitions`) as one value, and every state change the
 * sequentialised worker makes, as a function from the old state to the new one.
 * The class in explorer.dfy performs these changes in place; the lemmas here
 * state what they achieve.
 */
module Exploration {
  import opened Wrappers
  import opened EdgeSet
  import opened Nway
  import opened Collaborators
  import opened Compose

  datatype State = State(
    fileToNode: map<Text, nat>,
    nodeToFile: map<nat, Text>,
    pendingFiles: seq<nat>,
    pendingStrings: seq<nat>,
    parent: map<nat, (Rule, nat)>,
    children: map<nat, map<Rule, set<nat>>>,
    taken: map<nat, seq<Edge>>)

  /** The state before any file is added. */
  const Initial := State(map[], map[], [], [], map[], map[], map[])

  /** `node_to_file[n]`; a missing entry reads as the empty text. */
  function TextOf(s: State, n: nat): Text {
    if n in s.nodeToFile then s.nodeToFile[n] else ""
  }

  /** `children[n]`; a missing entry reads as empty. */
  function KidsMap(s: State, n: nat): map<Rule, set<nat>> {
    if n in s.children then s.children[n] else map[]
  }

  /** `children[n][rule]`; a missing entry reads as empty. */
  function KidsOf(s: State, n: nat, rule: Rule): set<nat> {
    var m := KidsMap(s, n);
    if rule in m then m[rule] else {}
  }

  /** `taken_transitions[n]`; a missing entry reads as empty. */
  function TakenOf(s: State, n: nat): seq<Edge> {
    if n in s.taken then s.taken[n] else []
  }

  /** The texts of a set of nodes. */
  function TextsOf(s: State, ids: set<nat>): set<Text> {
    set c | c in ids :: TextOf(s, c)
  }

  /** The two store maps are inverse to each other and the ids are exactly 0 .. size-1. */
  ghost predicate StoreValid(s: State) {
    (forall t :: t in s.fileToNode ==> s.fileToNode[t] in s.nodeToFile && s.nodeToFile[s.fileToNode[t]] == t) &&
    (forall n :: n in s.nodeToFile ==>
       n < |s.fileToNode| && s.nodeToFile[n] in s.fileToNode && s.fileToNode[s.nodeToFile[n]] == n) &&
    (forall n: nat :: n < |s.fileToNode| ==> n in s.nodeToFile)
  }

  /** Every id the queues and the graph mention was handed out by the store. */
  ghost predicate IdsKnown(s: State) {
    (forall n :: n in s.pendingFiles ==> n in s.nodeToFile) &&
    (forall n :: n in s.pendingStrings ==> n in s.nodeToFile) &&
    (forall n :: n in s.parent ==> n in s.nodeToFile && s.parent[n].1 in s.nodeToFile) &&
    (forall n :: n in s.children ==> n in s.nodeToFile && ChildrenKnown(s.children[n], s.nodeToFile.Keys)) &&
    s.taken.Keys <= s.nodeToFile.Keys
  }

  ghost predicate ChildrenKnown(kids: map<Rule, set<nat>>, known: set<nat>) {
    forall rule :: rule in kids ==> kids[rule] <= known
  }

  /** Ids stay known when the store only grows and the queues only lose elements. */
  lemma IdsKnownGrown(s: State, s2: State)
    requires IdsKnown(s)
    requires s2.parent == s.parent && s2.children == s.children && s2.taken == s.taken
    requires s.nodeToFile.Keys <= s2.nodeToFile.Keys
    requires forall n :: n in s2.pendingFiles ==> n in s.pendingFiles || n in s2.nodeToFile
    requires forall n :: n in s2.pendingStrings ==> n in s.pendingStrings || n in s2.nodeToFile
    ensures IdsKnown(s2)
  {
    forall n | n in s2.children
      ensures ChildrenKnown(s2.children[n], s2.nodeToFile.Keys)
    {
      assert ChildrenKnown(s.children[n], s.nodeToFile.Keys);
    }
  }

  /** Every taken transition is a recorded candidate: `taken[n]` lies within `children[n]`. */
  ghost predicate TakenRecorded(s: State) {
    forall n, k :: n in s.taken && 0 <= k < |s.taken[n]| ==> s.taken[n][k].1 in KidsOf(s, n, s.taken[n][k].0)
  }

  /** Each `taken[n]` is a std::set: sorted and free of duplicates. */
  ghost predicate TakenSorted(s: State) {
    forall n :: n in s.taken ==> Sorted(s.taken[n])
  }

  /** No taken transition leads from a node back to itself. */
  ghost predicate NoSelfLoop(s: State) {
    forall n, k :: n in s.taken && 0 <= k < |s.taken[n]| ==> s.taken[n][k].1 != n
  }

  ghost predicate Inv(s: State) {
    StoreValid(s) && IdsKnown(s) && TakenRecorded(s) && TakenSorted(s) && NoSelfLoop(s)
  }

  /** `s2`'s content store extends `s`'s: every text keeps its id and every id its text. */
  ghost predicate StoreExtends(s: State, s2: State) {
    (forall t :: t in s.fileToNode ==> t in s2.fileToNode && s2.fileToNode[t] == s.fileToNode[t]) &&
    (forall n :: n in s.nodeToFile ==> n in s2.nodeToFile && s2.nodeToFile[n] == s.nodeToFile[n])
  }

  lemma StoreExtendsTrans(s1: State, s2: State, s3: State)
    requires StoreExtends(s1, s2) && StoreExtends(s2, s3)
    ensures StoreExtends(s1, s3)
  {
  }

  /** Texts of known nodes survive store growth. */
  lemma StoreExtendsText(s: State, s2: State)
    requires StoreExtends(s, s2)
    ensures forall n :: n in s.nodeToFile ==> TextOf(s2, n) == TextOf(s, n)
  {
  }

  lemma InitialInv()
    ensures Inv(Initial)
  {
  }

  // ---------------------------------------------------------------------------
  // Content store (src/logifix.cpp:65-79)

  /** `string_to_node_id`: the id of `t`, handing out the next free id to a text never seen. */
  function Intern(s: State, t: Text): (r: (State, nat))
    ensures t in r.0.fileToNode && r.0.fileToNode[t] == r.1
    ensures t in s.fileToNode ==> r == (s, s.fileToNode[t])
    ensures t !in s.fileToNode ==> r.1 == |s.fileToNode| && |r.0.fileToNode| == |s.fileToNode| + 1
    ensures r.0 == s.(fileToNode := r.0.fileToNode, nodeToFile := r.0.nodeToFile)
    ensures StoreValid(s) ==> StoreExtends(s, r.0)
  {
    if t in s.fileToNode then (s, s.fileToNode[t])
    else
      var id := |s.fileToNode|;
      (s.(fileToNode := s.fileToNode[t := id], nodeToFile := s.nodeToFile[id := t]), id)
  }

  /** Interning keeps the store consistent and the id it returns reads back as the text; a new id was free before. */
  lemma InternRoundTrip(s: State, t: Text)
    requires StoreValid(s)
    ensures StoreValid(Intern(s, t).0)
    ensures TextOf(Intern(s, t).0, Intern(s, t).1) == t
    ensures t !in s.fileToNode ==> Intern(s, t).1 !in s.nodeToFile
  {
    var s2 := Intern(s, t).0;
    var id := Intern(s, t).1;
    if t !in s.fileToNode {
      assert id !in s.nodeToFile;
      forall n: nat | n < |s2.fileToNode|
        ensures n in s2.nodeToFile
      {
        if n < |s.fileToNode| {
          assert n in s.nodeToFile;
        }
      }
    }
  }

  /** Interning the same text twice: the second call returns the same id and changes nothing. */
  lemma InternIdempotent(s: State, t: Text)
    ensures Intern(Intern(s, t).0, t) == Intern(s, t)
  {
  }

  /** Two texts get the same id only if they are the same text. */
  lemma InternInjective(s: State, t: Text, u: Text)
    requires StoreValid(s)
    requires Intern(Intern(s, t).0, u).1 == Intern(s, t).1
    ensures t == u
  {
    InternRoundTrip(s, t);
    InternRoundTrip(Intern(s, t).0, u);
  }

  lemma InternKeepsInv(s: State, t: Text)
    requires Inv(s)
    ensures Inv(Intern(s, t).0)
  {
    InternRoundTrip(s, t);
    IdsKnownGrown(s, Intern(s, t).0);
  }

  /** `add_file`: intern the text and push its id at the front of `pending_files`. */
  function AddFile(s: State, t: Text): (r: (State, nat))
    ensures r.0.pendingFiles == [r.1] + s.pendingFiles
    ensures r.1 == Intern(s, t).1 && r.0.fileToNode == Intern(s, t).0.fileToNode
  {
    var i := Intern(s, t);
    (i.0.(pendingFiles := [i.1] + i.0.pendingFiles), i.1)
  }

  lemma AddFileKeepsInv(s: State, t: Text)
    requires Inv(s)
    ensures Inv(AddFile(s, t).0)
    ensures TextOf(AddFile(s, t).0, AddFile(s, t).1) == t
  {
    InternKeepsInv(s, t);
    InternRoundTrip(s, t);
    IdsKnownGrown(Intern(s, t).0, AddFile(s, t).0);
  }

  // ---------------------------------------------------------------------------
  // Work acquisition (src/logifix.cpp:163-191, sequentialised)

  /**
   * Take the next node to process: the front of `pending_strings` when it has
   * one, otherwise the front of `pending_files`; nothing when both are empty
   * (the sequential stand-in for the idle-count termination).
   */
  function Acquire(s: State): (r: Option<(State, nat)>)
    ensures r.None? <==> s.pendingStrings == [] && s.pendingFiles == []
    ensures r.Some? ==> r.value.0 == s.(pendingFiles := r.value.0.pendingFiles, pendingStrings := r.value.0.pendingStrings)
    ensures r.Some? ==>
      multiset(s.pendingStrings) + multiset(s.pendingFiles) ==
      multiset(r.value.0.pendingStrings) + multiset(r.value.0.pendingFiles) + multiset{r.value.1}
    ensures r.Some? && s.pendingStrings != [] ==> r.value.0.pendingFiles == s.pendingFiles
  {
    if s.pendingStrings != [] then
      PopFront(s.pendingStrings);
      Some((s.(pendingStrings := s.pendingStrings[1..]), s.pendingStrings[0]))
    else if s.pendingFiles != [] then
      PopFront(s.pendingFiles);
      Some((s.(pendingFiles := s.pendingFiles[1..]), s.pendingFiles[0]))
    else None
  }

  /** Popping the front of a queue loses exactly that one id. */
  lemma PopFront(q: seq<nat>)
    requires q != []
    ensures multiset(q) == multiset(q[1..]) + multiset{q[0]}
  {
    assert q == [q[0]] + q[1..];
  }

  /** The seed added last is the first one taken once no derived work is pending. */
  lemma LastSeedFirst(s: State, t: Text)
    requires s.pendingStrings == []
    ensures Acquire(AddFile(s, t).0).Some?
    ensures Acquire(AddFile(s, t).0).value.1 == AddFile(s, t).1
    ensures Acquire(AddFile(s, t).0).value.0.pendingFiles == s.pendingFiles
  {
  }

  /** Derived work is first in, first out: what is appended behind a pending queue comes out after it. */
  lemma DerivedFifo(s: State, more: seq<nat>)
    requires s.pendingStrings != []
    ensures Acquire(s.(pendingStrings := s.pendingStrings + more)).Some?
    ensures Acquire(s.(pendingStrings := s.pendingStrings + more)).value.1 == s.pendingStrings[0]
    ensures Acquire(s.(pendingStrings := s.pendingStrings + more)).value.0.pendingStrings == s.pendingStrings[1..] + more
  {
    assert (s.pendingStrings + more)[1..] == s.pendingStrings[1..] + more;
  }

  lemma AcquireKeepsInv(s: State)
    requires Inv(s) && Acquire(s).Some?
    ensures Inv(Acquire(s).value.0)
    ensures Acquire(s).value.1 in s.nodeToFile
  {
    var s1 := Acquire(s).value.0;
    var n := Acquire(s).value.1;
    assert n in multiset(s.pendingStrings) + multiset(s.pendingFiles);
    forall m | m in s1.pendingStrings ensures m in s.pendingStrings {
      assert m in multiset(s1.pendingStrings);
    }
    forall m | m in s1.pendingFiles ensures m in s.pendingFiles {
      assert m in multiset(s1.pendingFiles);
    }
    IdsKnownGrown(s, s1);
  }

  // ---------------------------------------------------------------------------
  // Recording the analyzer's rewrites (src/logifix.cpp:197-205)

  /** `children[current][rule].emplace(id)` on the map `children[current]`. */
  function AddKid(m: map<Rule, set<nat>>, rule: Rule, id: nat): (r: map<Rule, set<nat>>)
    ensures forall q :: q in r <==> q in m || q == rule
  {
    m[rule := (if rule in m then m[rule] else {}) + {id}]
  }

  /** One pass of the recording loop: intern the text, overwrite its parent, record the candidate edge. */
  function RecordOne(s: State, current: nat, rule: Rule, src: Text): (r: (State, nat))
    ensures r.1 == Intern(s, src).1
  {
    var i := Intern(s, src);
    (i.0.(parent := i.0.parent[i.1 := (rule, current)],
          children := i.0.children[current := AddKid(KidsMap(i.0, current), rule, i.1)]), i.1)
  }

  /**
   * The recording loop over the analyzer's `(rule, text)` pairs, in order; it
   * also returns `next_nodes`, the `(id, rule)` pairs the admission loop visits.
   */
  function Record(s: State, current: nat, rewrites: seq<(Rule, Text)>): (r: (State, seq<(nat, Rule)>))
    ensures |r.1| == |rewrites|
    ensures forall i :: 0 <= i < |r.1| ==> r.1[i].1 == rewrites[i].0
    ensures r.0.pendingFiles == s.pendingFiles && r.0.pendingStrings == s.pendingStrings && r.0.taken == s.taken
    decreases |rewrites|
  {
    if rewrites == [] then (s, [])
    else
      var prev := Record(s, current, rewrites[..|rewrites| - 1]);
      var last := rewrites[|rewrites| - 1];
      var step := RecordOne(prev.0, current, last.0, last.1);
      (step.0, prev.1 + [(step.1, last.0)])
  }

  /** The ids the recording loop produced under `rule`. */
  function Produced(next: seq<(nat, Rule)>, rule: Rule): set<nat> {
    set i | 0 <= i < |next| && next[i].1 == rule :: next[i].0
  }

  /** One recording pass adds the new id to `children[current][rule]` and touches no other candidate set. */
  lemma RecordOneKids(s: State, current: nat, rule: Rule, src: Text)
    ensures forall n, q :: n != current ==> KidsOf(RecordOne(s, current, rule, src).0, n, q) == KidsOf(s, n, q)
    ensures forall q :: KidsOf(RecordOne(s, current, rule, src).0, current, q) ==
                        KidsOf(s, current, q) + (if q == rule then {RecordOne(s, current, rule, src).1} else {})
  {
  }

  /** One recording pass only grows the store, and the id it returns reads back as the text. */
  lemma RecordOneStore(s: State, current: nat, rule: Rule, src: Text)
    requires StoreValid(s)
    ensures StoreValid(RecordOne(s, current, rule, src).0)
    ensures StoreExtends(s, RecordOne(s, current, rule, src).0)
    ensures TextOf(RecordOne(s, current, rule, src).0, RecordOne(s, current, rule, src).1) == src
  {
    InternRoundTrip(s, src);
  }

  lemma RecordOneIds(s: State, current: nat, rule: Rule, src: Text)
    requires StoreValid(s) && IdsKnown(s) && current in s.nodeToFile
    ensures IdsKnown(RecordOne(s, current, rule, src).0)
  {
    var si := Intern(s, src).0;
    InternRoundTrip(s, src);
    IdsKnownGrown(s, si);
    var s2 := RecordOne(s, current, rule, src).0;
    forall n | n in s2.children
      ensures n in s2.nodeToFile && ChildrenKnown(s2.children[n], s2.nodeToFile.Keys)
    {
      if n != current || n in si.children {
        assert ChildrenKnown(si.children[n], si.nodeToFile.Keys);
      }
    }
  }

  lemma RecordOneTaken(s: State, current: nat, rule: Rule, src: Text)
    requires TakenRecorded(s) && TakenSorted(s) && NoSelfLoop(s)
    ensures var s2 := RecordOne(s, current, rule, src).0;
      TakenRecorded(s2) && TakenSorted(s2) && NoSelfLoop(s2)
  {
    RecordOneKids(s, current, rule, src);
    var s2 := RecordOne(s, current, rule, src).0;
    forall n, k | n in s2.taken && 0 <= k < |s2.taken[n]|
      ensures s2.taken[n][k].1 in KidsOf(s2, n, s2.taken[n][k].0)
    {
      assert s2.taken[n][k].1 in KidsOf(s, n, s2.taken[n][k].0);
    }
  }

  /** One recording pass keeps the invariant. */
  lemma RecordOneKeepsInv(s: State, current: nat, rule: Rule, src: Text)
    requires Inv(s) && current in s.nodeToFile
    ensures Inv(RecordOne(s, current, rule, src).0)
    ensures StoreExtends(s, RecordOne(s, current, rule, src).0)
    ensures TextOf(RecordOne(s, current, rule, src).0, RecordOne(s, current, rule, src).1) == src
  {
    RecordOneStore(s, current, rule, src);
    RecordOneIds(s, current, rule, src);
    RecordOneTaken(s, current, rule, src);
  }

  /** Recording keeps the invariant and only grows the store. */
  lemma {:induction false} RecordKeepsInv(s: State, current: nat, rewrites: seq<(Rule, Text)>)
    requires Inv(s) && current in s.nodeToFile
    ensures Inv(Record(s, current, rewrites).0)
    ensures StoreExtends(s, Record(s, current, rewrites).0)
    decreases |rewrites|
  {
    if rewrites != [] {
      var init := rewrites[..|rewrites| - 1];
      var last := rewrites[|rewrites| - 1];
      var prev := Record(s, current, init);
      RecordKeepsInv(s, current, init);
      RecordOneKeepsInv(prev.0, current, last.0, last.1);
      StoreExtendsTrans(s, prev.0, Record(s, current, rewrites).0);
    }
  }

  /** Recording only adds candidates, and only to `current`'s children. */
  lemma {:induction false} RecordKids(s: State, current: nat, rewrites: seq<(Rule, Text)>)
    ensures forall n, q :: KidsOf(s, n, q) <= KidsOf(Record(s, current, rewrites).0, n, q)
    ensures forall n, q :: n != current ==> KidsOf(Record(s, current, rewrites).0, n, q) == KidsOf(s, n, q)
    decreases |rewrites|
  {
    if rewrites != [] {
      var init := rewrites[..|rewrites| - 1];
      var last := rewrites[|rewrites| - 1];
      RecordKids(s, current, init);
      RecordOneKids(Record(s, current, init).0, current, last.0, last.1);
    }
  }

  /** Recording only grows the store. */
  lemma {:induction false} RecordStore(s: State, current: nat, rewrites: seq<(Rule, Text)>)
    requires StoreValid(s)
    ensures StoreValid(Record(s, current, rewrites).0)
    ensures StoreExtends(s, Record(s, current, rewrites).0)
    decreases |rewrites|
  {
    if rewrites != [] {
      var init := rewrites[..|rewrites| - 1];
      var last := rewrites[|rewrites| - 1];
      var prev := Record(s, current, init);
      RecordStore(s, current, init);
      RecordOneStore(prev.0, current, last.0, last.1);
      StoreExtendsTrans(s, prev.0, Record(s, current, rewrites).0);
    }
  }

  /**
   * After recording, the `i`-th `(rule, text)` the analyzer returned has its node among
   * `children[current][rule]`, and that node's text is `text`.
   */
  lemma {:induction false} RecordCandidate(s: State, current: nat, rewrites: seq<(Rule, Text)>, i: nat)
    requires StoreValid(s) && i < |rewrites|
    ensures Record(s, current, rewrites).1[i].0 in Record(s, current, rewrites).0.nodeToFile
    ensures TextOf(Record(s, current, rewrites).0, Record(s, current, rewrites).1[i].0) == rewrites[i].1
    decreases |rewrites|
  {
    var init := rewrites[..|rewrites| - 1];
    var last := rewrites[|rewrites| - 1];
    var prev := Record(s, current, init);
    var step := RecordOne(prev.0, current, last.0, last.1);
    var r := Record(s, current, rewrites);
    assert r == (step.0, prev.1 + [(step.1, last.0)]);
    RecordStore(s, current, init);
    RecordOneStore(prev.0, current, last.0, last.1);
    if i < |init| {
      RecordCandidate(s, current, init, i);
      assert init[i] == rewrites[i] && r.1[i] == prev.1[i];
      KeptText(prev.0, step.0, prev.1[i].0, rewrites[i].1);
      assert TextOf(r.0, r.1[i].0) == rewrites[i].1;
    } else {
      assert i == |rewrites| - 1 && rewrites[i] == last;
      assert r.1[i] == (step.1, last.0);
      assert TextOf(r.0, r.1[i].0) == last.1;
    }
  }

  /** A node whose text is known keeps it when the store only grows. */
  lemma KeptText(s: State, s2: State, n: nat, t: Text)
    requires StoreExtends(s, s2) && n in s.nodeToFile && TextOf(s, n) == t
    ensures n in s2.nodeToFile && TextOf(s2, n) == t
  {
  }

  /** The node recorded for the `i`-th rewrite is among `children[current][rule]`. */
  lemma {:induction false} RecordCandidateKid(s: State, current: nat, rewrites: seq<(Rule, Text)>, i: nat)
    requires i < |rewrites|
    ensures Record(s, current, rewrites).1[i].0 in KidsOf(Record(s, current, rewrites).0, current, rewrites[i].0)
  {
    var r := Record(s, current, rewrites);
    RecordKidsProduced(s, current, rewrites);
    assert r.1[i].0 in Produced(r.1, rewrites[i].0);
  }

  /** Appending one produced id adds it under its rule only. */
  lemma ProducedSnoc(next: seq<(nat, Rule)>, id: nat, rule: Rule, q: Rule)
    ensures Produced(next + [(id, rule)], q) == Produced(next, q) + (if q == rule then {id} else {})
  {
    var next2 := next + [(id, rule)];
    forall c | c in Produced(next2, q)
      ensures c in Produced(next, q) + (if q == rule then {id} else {})
    {
      var i :| 0 <= i < |next2| && next2[i].1 == q && next2[i].0 == c;
      if i < |next| {
        assert next[i] == next2[i];
      }
    }
    forall c | c in Produced(next, q)
      ensures c in Produced(next2, q)
    {
      var i :| 0 <= i < |next| && next[i].1 == q && next[i].0 == c;
      assert next2[i] == next[i];
    }
    if q == rule {
      assert next2[|next|] == (id, rule);
    }
  }

  /** `children[current][rule]` gains exactly the ids the loop produced under `rule`. */
  lemma {:induction false} RecordKidsProduced(s: State, current: nat, rewrites: seq<(Rule, Text)>)
    ensures var r := Record(s, current, rewrites);
      forall q :: KidsOf(r.0, current, q) == KidsOf(s, current, q) + Produced(r.1, q)
    decreases |rewrites|
  {
    if rewrites != [] {
      var init := rewrites[..|rewrites| - 1];
      var last := rewrites[|rewrites| - 1];
      var prev := Record(s, current, init);
      var step := RecordOne(prev.0, current, last.0, last.1);
      var r := Record(s, current, rewrites);
      assert r == (step.0, prev.1 + [(step.1, last.0)]);
      RecordKidsProduced(s, current, init);
      RecordOneKids(prev.0, current, last.0, last.1);
      forall q
        ensures KidsOf(r.0, current, q) == KidsOf(s, current, q) + Produced(r.1, q)
      {
        ProducedSnoc(prev.1, step.1, last.0, q);
      }
    }
  }

  /** The ids in `next_nodes`. */
  function Ids(next: seq<(nat, Rule)>): set<nat> {
    set i | 0 <= i < |next| :: next[i].0
  }

  /** `next[i]` is the last entry of `next_nodes` with its id. */
  predicate LastWith(next: seq<(nat, Rule)>, i: nat)
    requires i < |next|
  {
    forall j :: i < j < |next| ==> next[j].0 != next[i].0
  }

  /**
   * The parent entries after recording: a node produced by the loop has as parent
   * `(rule, current)` of the LAST pair that produced it, since each pass overwrites it.
   */
  lemma {:induction false} RecordParents(s: State, current: nat, rewrites: seq<(Rule, Text)>)
    ensures var r := Record(s, current, rewrites);
      forall i :: 0 <= i < |r.1| && LastWith(r.1, i) ==>
        r.1[i].0 in r.0.parent && r.0.parent[r.1[i].0] == (rewrites[i].0, current)
    decreases |rewrites|
  {
    if rewrites != [] {
      var init := rewrites[..|rewrites| - 1];
      RecordParents(s, current, init);
      var prev := Record(s, current, init);
      var r := Record(s, current, rewrites);
      forall i | 0 <= i < |r.1| && LastWith(r.1, i)
        ensures r.1[i].0 in r.0.parent && r.0.parent[r.1[i].0] == (rewrites[i].0, current)
      {
        if i < |prev.1| {
          assert init[i] == rewrites[i] && r.1[i] == prev.1[i];
          assert r.1[|prev.1|].0 != r.1[i].0;
          forall j | i < j < |prev.1| ensures prev.1[j].0 != prev.1[i].0 {
            assert r.1[j] == prev.1[j];
          }
        }
      }
    }
  }

  /** Recording leaves the parent of every node it did not produce as it was. */
  lemma {:induction false} RecordParentsElsewhere(s: State, current: nat, rewrites: seq<(Rule, Text)>, n: nat)
    requires n !in Ids(Record(s, current, rewrites).1)
    ensures n in Record(s, current, rewrites).0.parent <==> n in s.parent
    ensures n in s.parent ==> Record(s, current, rewrites).0.parent[n] == s.parent[n]
    decreases |rewrites|
  {
    if rewrites != [] {
      var init := rewrites[..|rewrites| - 1];
      var prev := Record(s, current, init);
      var r := Record(s, current, rewrites);
      assert r.1[|prev.1|].0 != n;
      forall i | 0 <= i < |prev.1| ensures prev.1[i].0 != n {
        assert r.1[i] == prev.1[i];
      }
      RecordParentsElsewhere(s, current, init, n);
    }
  }

  /** The last position in `next` that produced node `n`, given one position that did. */
  function LastIndexOf(next: seq<(nat, Rule)>, n: nat, i: nat): (k: nat)
    requires i < |next| && next[i].0 == n
    ensures i <= k < |next| && next[k].0 == n
    ensures LastWith(next, k)
    decreases |next| - i
  {
    if exists j :: i < j < |next| && next[j].0 == n then
      var j :| i < j < |next| && next[j].0 == n;
      LastIndexOf(next, n, j)
    else i
  }

  /** A rewrite back to current's own text makes current its own parent before admission runs. */
  lemma RecordSelfRewrite(s: State, current: nat, rewrites: seq<(Rule, Text)>, i: nat)
    requires Inv(s) && current in s.nodeToFile
    requires i < |rewrites| && rewrites[i].1 == TextOf(s, current)
    ensures current in Record(s, current, rewrites).0.parent
    ensures Record(s, current, rewrites).0.parent[current].1 == current
  {
    var r := Record(s, current, rewrites);
    RecordCandidate(s, current, rewrites, i);
    RecordStore(s, current, rewrites);
    StoreExtendsText(s, r.0);
    assert r.1[i].0 == current;
    var k := LastIndexOf(r.1, current, i);
    RecordParents(s, current, rewrites);
  }

  // ---------------------------------------------------------------------------
  // Admission (src/logifix.cpp:207-247)

  /**
   * The text "this rule applied directly to the parent" for candidate `next` of
   * `current`, whose parent is `pid`: the composition loop over the admission diff.
   * Under `Contract` every segment has the two variants the loop reads
   * (`AdmissionDiffTwoWay`); a diff without them has no composition and reads as "".
   */
  function ComposedFor(ext: Externals, s: State, pid: nat, current: nat, next: nat): Text {
    var d := AdmissionDiff(ext, TextOf(s, pid), TextOf(s, current), TextOf(s, next));
    if TwoWay(d) then Composed(d) else ""
  }

  /**
   * The admission rule: the candidate is taken unless `current` has a parent and
   * the composed text is already the text of a candidate recorded for the parent
   * under the same rule.
   */
  predicate Admits(ext: Externals, s: State, current: nat, next: nat, rule: Rule)
  {
    current !in s.parent ||
    ComposedFor(ext, s, s.parent[current].1, current, next) !in TextsOf(s, KidsOf(s, s.parent[current].1, rule))
  }

  /** Taking a transition: `next` joins the back of `pending_strings`, `(rule, next)` joins `taken_transitions[current]`. */
  function Take(s: State, current: nat, next: nat, rule: Rule): State
  {
    s.(pendingStrings := s.pendingStrings + [next], taken := s.taken[current := Insert(TakenOf(s, current), (rule, next))])
  }

  /** `r` is `s` after taking `(rule, next)`, as far as the queue and `taken_transitions[current]` show. */
  predicate Took(s: State, r: State, current: nat, next: nat, rule: Rule)
  {
    r.pendingStrings == s.pendingStrings + [next] && TakenOf(r, current) == Insert(TakenOf(s, current), (rule, next))
  }

  /** `r` leaves the queue and `taken_transitions[current]` as `s` had them. */
  predicate Skipped(s: State, r: State, current: nat) {
    r.pendingStrings == s.pendingStrings && TakenOf(r, current) == TakenOf(s, current)
  }

  /**
   * One pass of the admission loop for the pair `(next, rule)` of `next_nodes`.
   * The composed text is interned even when the candidate is then rejected.
   */
  function AdmitOne(ext: Externals, s: State, current: nat, next: nat, rule: Rule): (r: State)
    ensures r.parent == s.parent && r.children == s.children && r.pendingFiles == s.pendingFiles
    ensures Took(s, r, current, next, rule) || Skipped(s, r, current)
    ensures forall n :: n != current ==> TakenOf(r, n) == TakenOf(s, n)
    ensures r.taken.Keys <= s.taken.Keys + {current}
    ensures StoreValid(s) ==> StoreValid(r) && StoreExtends(s, r)
  {
    if current in s.parent then
      var pid := s.parent[current].1;
      var t := ComposedFor(ext, s, pid, current, next);
      var i := Intern(s, t);
      InternStore(s, t);
      if i.1 in KidsOf(i.0, pid, rule) then i.0 else Take(i.0, current, next, rule)
    else Take(s, current, next, rule)
  }

  /** Interning keeps a valid store valid and only grows it. */
  lemma InternStore(s: State, t: Text)
    ensures StoreValid(s) ==> StoreValid(Intern(s, t).0) && StoreExtends(s, Intern(s, t).0)
  {
    if StoreValid(s) {
      InternRoundTrip(s, t);
    }
  }

  /** The admission check takes the candidate exactly when `Admits` holds, and otherwise changes neither queue nor set. */
  lemma AdmitOneDecision(ext: Externals, s: State, current: nat, next: nat, rule: Rule)
    requires StoreValid(s) && IdsKnown(s)
    ensures Admits(ext, s, current, next, rule) ==> Took(s, AdmitOne(ext, s, current, next, rule), current, next, rule)
    ensures !Admits(ext, s, current, next, rule) ==> Skipped(s, AdmitOne(ext, s, current, next, rule), current)
  {
    if current in s.parent {
      var pid := s.parent[current].1;
      var t := ComposedFor(ext, s, pid, current, next);
      var i := Intern(s, t);
      var kids := KidsOf(s, pid, rule);
      assert KidsOf(i.0, pid, rule) == kids;
      assert kids <= s.nodeToFile.Keys by {
        if pid in s.children {
          assert ChildrenKnown(s.children[pid], s.nodeToFile.Keys);
        }
      }
      if t in s.fileToNode {
        assert i.1 in kids <==> t in TextsOf(s, kids) by {
          if t in TextsOf(s, kids) {
            var c :| c in kids && TextOf(s, c) == t;
            assert s.fileToNode[s.nodeToFile[c]] == c;
          }
        }
      } else {
        InternRoundTrip(s, t);
        forall c | c in kids
          ensures TextOf(s, c) != t
        {
          assert s.nodeToFile[c] in s.fileToNode;
        }
      }
    }
  }

  /** The admission loop over `next_nodes`, in order. */
  function Admit(ext: Externals, s: State, current: nat, nexts: seq<(nat, Rule)>): (r: State)
    ensures r.parent == s.parent && r.children == s.children && r.pendingFiles == s.pendingFiles
    ensures forall n :: n != current ==> TakenOf(r, n) == TakenOf(s, n)
    ensures r.taken.Keys <= s.taken.Keys + {current}
    ensures StoreValid(s) ==> StoreValid(r) && StoreExtends(s, r)
    decreases |nexts|
  {
    if nexts == [] then s
    else
      var prev := Admit(ext, s, current, nexts[..|nexts| - 1]);
      var last := nexts[|nexts| - 1];
      AdmitOne(ext, prev, current, last.0, last.1)
  }

  /** The ids the admission loop appends to `pending_strings`, in order. */
  function Admitted(ext: Externals, s: State, current: nat, nexts: seq<(nat, Rule)>): seq<nat>
    decreases |nexts|
  {
    if nexts == [] then []
    else
      var last := nexts[|nexts| - 1];
      var before := Admitted(ext, s, current, nexts[..|nexts| - 1]);
      if Admits(ext, s, current, last.0, last.1) then before + [last.0] else before
  }

  /** The `(rule, next)` pairs the admission loop adds to `taken_transitions[current]`. */
  function AdmittedEdges(ext: Externals, s: State, current: nat, nexts: seq<(nat, Rule)>): set<Edge>
  {
    set i | 0 <= i < |nexts| && Admits(ext, s, current, nexts[i].0, nexts[i].1) :: (nexts[i].1, nexts[i].0)
  }

  /** The admission verdict does not change while the store grows and the graph stays put. */
  lemma AdmitsStable(ext: Externals, s: State, s2: State, current: nat, next: nat, rule: Rule)
    requires IdsKnown(s) && StoreExtends(s, s2)
    requires s2.parent == s.parent && s2.children == s.children
    requires current in s.nodeToFile && next in s.nodeToFile
    ensures Admits(ext, s2, current, next, rule) == Admits(ext, s, current, next, rule)
  {
    if current in s.parent {
      var pid := s.parent[current].1;
      var kids := KidsOf(s, pid, rule);
      assert kids <= s.nodeToFile.Keys by {
        if pid in s.children {
          assert ChildrenKnown(s.children[pid], s.nodeToFile.Keys);
        }
      }
      assert TextOf(s2, pid) == TextOf(s, pid);
      assert TextsOf(s2, kids) == TextsOf(s, kids);
    }
  }

  /** One admission pass keeps every id known. */
  lemma AdmitOneKnown(ext: Externals, s: State, current: nat, next: nat, rule: Rule)
    requires StoreValid(s) && IdsKnown(s)
    requires current in s.nodeToFile && next in s.nodeToFile
    ensures IdsKnown(AdmitOne(ext, s, current, next, rule))
  {
    var r := AdmitOne(ext, s, current, next, rule);
    assert s.nodeToFile.Keys <= r.nodeToFile.Keys;
    forall n | n in r.children
      ensures ChildrenKnown(r.children[n], r.nodeToFile.Keys)
    {
      assert ChildrenKnown(s.children[n], s.nodeToFile.Keys);
    }
  }

  /** Admission only appends known ids to the queue, so the ids stay known. */
  lemma {:induction false} AdmitKnown(ext: Externals, s: State, current: nat, nexts: seq<(nat, Rule)>)
    requires StoreValid(s) && IdsKnown(s) && current in s.nodeToFile
    requires forall i :: 0 <= i < |nexts| ==> nexts[i].0 in s.nodeToFile
    ensures IdsKnown(Admit(ext, s, current, nexts))
    decreases |nexts|
  {
    if nexts != [] {
      var init := nexts[..|nexts| - 1];
      var last := nexts[|nexts| - 1];
      var prev := Admit(ext, s, current, init);
      assert forall i :: 0 <= i < |init| ==> init[i] == nexts[i];
      AdmitKnown(ext, s, current, init);
      assert last.0 in prev.nodeToFile;
      AdmitOneKnown(ext, prev, current, last.0, last.1);
    }
  }

  /**
   * Sequence concatenation regrouped. Proved on its own: inside `AdmitQueue`, with the
   * admission fold in scope, the same step runs out of resource.
   */
  lemma ConcatAssoc(a: seq<nat>, b: seq<nat>, c: seq<nat>)
    ensures a + b + c == a + (b + c)
  {
  }

  /** The queue gains exactly the admitted ids, in `next_nodes` order. */
  lemma {:induction false} AdmitQueue(ext: Externals, s: State, current: nat, nexts: seq<(nat, Rule)>)
    requires StoreValid(s) && IdsKnown(s) && current in s.nodeToFile
    requires forall i :: 0 <= i < |nexts| ==> nexts[i].0 in s.nodeToFile
    ensures Admit(ext, s, current, nexts).pendingStrings == s.pendingStrings + Admitted(ext, s, current, nexts)
    decreases |nexts|
  {
    if nexts != [] {
      var init := nexts[..|nexts| - 1];
      var last := nexts[|nexts| - 1];
      var prev := Admit(ext, s, current, init);
      assert forall i :: 0 <= i < |init| ==> init[i] == nexts[i];
      AdmitQueue(ext, s, current, init);
      AdmitKnown(ext, s, current, init);
      AdmitOneDecision(ext, prev, current, last.0, last.1);
      AdmitsStable(ext, s, prev, current, last.0, last.1);
      var r := AdmitOne(ext, prev, current, last.0, last.1);
      assert Admit(ext, s, current, nexts) == r;
      if Admits(ext, s, current, last.0, last.1) {
        assert r.pendingStrings == prev.pendingStrings + [last.0];
        ConcatAssoc(s.pendingStrings, Admitted(ext, s, current, init), [last.0]);
      } else {
        assert r.pendingStrings == prev.pendingStrings;
      }
    }
  }

  /** `taken_transitions[current]` gains exactly the admitted pairs. */
  lemma {:induction false} AdmitTaken(ext: Externals, s: State, current: nat, nexts: seq<(nat, Rule)>)
    requires StoreValid(s) && IdsKnown(s) && current in s.nodeToFile
    requires forall i :: 0 <= i < |nexts| ==> nexts[i].0 in s.nodeToFile
    ensures forall e :: e in TakenOf(Admit(ext, s, current, nexts), current) <==>
      e in TakenOf(s, current) || e in AdmittedEdges(ext, s, current, nexts)
    decreases |nexts|
  {
    if nexts != [] {
      var init := nexts[..|nexts| - 1];
      var last := nexts[|nexts| - 1];
      var prev := Admit(ext, s, current, init);
      assert forall i :: 0 <= i < |init| ==> init[i] == nexts[i];
      AdmitTaken(ext, s, current, init);
      AdmitKnown(ext, s, current, init);
      AdmitOneDecision(ext, prev, current, last.0, last.1);
      AdmitsStable(ext, s, prev, current, last.0, last.1);
      var r := AdmitOne(ext, prev, current, last.0, last.1);
      assert Admit(ext, s, current, nexts) == r;
      AdmittedEdgesSnoc(ext, s, current, nexts);
    }
  }

  /** Extending `next_nodes` by one pair adds that pair's edge exactly when it is admitted. */
  lemma AdmittedEdgesSnoc(ext: Externals, s: State, current: nat, nexts: seq<(nat, Rule)>)
    requires nexts != []
    ensures var last := nexts[|nexts| - 1];
      Admits(ext, s, current, last.0, last.1) ==>
        AdmittedEdges(ext, s, current, nexts) == AdmittedEdges(ext, s, current, nexts[..|nexts| - 1]) + {(last.1, last.0)}
    ensures var last := nexts[|nexts| - 1];
      !Admits(ext, s, current, last.0, last.1) ==>
        AdmittedEdges(ext, s, current, nexts) == AdmittedEdges(ext, s, current, nexts[..|nexts| - 1])
  {
    var init := nexts[..|nexts| - 1];
    var last := nexts[|nexts| - 1];
    var edges := AdmittedEdges(ext, s, current, nexts);
    var edges0 := AdmittedEdges(ext, s, current, init);
    forall e | e in edges && e !in edges0
      ensures Admits(ext, s, current, last.0, last.1) && e == (last.1, last.0)
    {
      var i :| 0 <= i < |nexts| && Admits(ext, s, current, nexts[i].0, nexts[i].1) && e == (nexts[i].1, nexts[i].0);
    }
    forall e | e in edges0
      ensures e in edges
    {
      var i :| 0 <= i < |init| && Admits(ext, s, current, init[i].0, init[i].1) && e == (init[i].1, init[i].0);
      assert init[i] == nexts[i];
    }
    if Admits(ext, s, current, last.0, last.1) {
      assert (last.1, last.0) in edges;
    }
  }

  /** Every pair of `next_nodes` is a recorded candidate of `current`. */
  predicate Recorded(s: State, current: nat, nexts: seq<(nat, Rule)>) {
    forall i :: 0 <= i < |nexts| ==> nexts[i].0 in KidsOf(s, current, nexts[i].1)
  }

  /** If `current` is among its own candidates, recording has made it its own parent. */
  predicate SelfParented(s: State, current: nat, nexts: seq<(nat, Rule)>) {
    current in Ids(nexts) ==> current in s.parent && s.parent[current].1 == current
  }

  /**
   * A candidate that is `current` itself is rejected once `current` is its own
   * parent: the composition gives back current's text, already recorded under the rule.
   */
  lemma SelfNotAdmitted(ext: Externals, s: State, current: nat, rule: Rule)
    requires Contract(ext)
    requires current in s.parent && s.parent[current].1 == current && current in KidsOf(s, current, rule)
    ensures !Admits(ext, s, current, current, rule)
  {
    var c := TextOf(s, current);
    ComposeRepeat(ext, c, c);
    assert ComposedFor(ext, s, current, current, current) == c;
    assert c in TextsOf(s, KidsOf(s, current, rule));
  }

  /** Each pair admission adds to `taken_transitions[current]` is a recorded candidate other than `current`. */
  lemma AdmittedEdgeSound(ext: Externals, s: State, current: nat, nexts: seq<(nat, Rule)>, e: Edge)
    requires Contract(ext) && Recorded(s, current, nexts) && SelfParented(s, current, nexts)
    requires e in AdmittedEdges(ext, s, current, nexts)
    ensures e.1 in KidsOf(s, current, e.0) && e.1 != current
  {
    var i :| 0 <= i < |nexts| && Admits(ext, s, current, nexts[i].0, nexts[i].1) && e == (nexts[i].1, nexts[i].0);
    if nexts[i].0 == current {
      assert current in Ids(nexts);
      SelfNotAdmitted(ext, s, current, nexts[i].1);
    }
  }

  /** The ids of recorded candidates are known. */
  lemma RecordedKnown(s: State, current: nat, nexts: seq<(nat, Rule)>)
    requires IdsKnown(s) && Recorded(s, current, nexts)
    ensures forall i :: 0 <= i < |nexts| ==> nexts[i].0 in s.nodeToFile
  {
    forall i | 0 <= i < |nexts|
      ensures nexts[i].0 in s.nodeToFile
    {
      assert nexts[i].0 in KidsOf(s, current, nexts[i].1);
      assert current in s.children;
      assert ChildrenKnown(s.children[current], s.nodeToFile.Keys);
      assert nexts[i].1 in s.children[current];
    }
  }

  /** After admission every taken transition is still a recorded candidate and none is a self-loop. */
  lemma AdmitTakenSound(ext: Externals, s: State, current: nat, nexts: seq<(nat, Rule)>)
    requires Contract(ext) && Inv(s) && current in s.nodeToFile
    requires Recorded(s, current, nexts) && SelfParented(s, current, nexts)
    ensures TakenRecorded(Admit(ext, s, current, nexts)) && NoSelfLoop(Admit(ext, s, current, nexts))
  {
    var r := Admit(ext, s, current, nexts);
    RecordedKnown(s, current, nexts);
    AdmitTaken(ext, s, current, nexts);
    forall n, k | n in r.taken && 0 <= k < |r.taken[n]|
      ensures r.taken[n][k].1 in KidsOf(r, n, r.taken[n][k].0) && r.taken[n][k].1 != n
    {
      var e := r.taken[n][k];
      if n == current {
        assert e in TakenOf(r, current);
        if e in TakenOf(s, current) {
          var k2 :| 0 <= k2 < |s.taken[n]| && s.taken[n][k2] == e;
        } else {
          AdmittedEdgeSound(ext, s, current, nexts, e);
        }
      } else {
        assert TakenOf(r, n) == TakenOf(s, n);
        assert r.taken[n] == s.taken[n];
      }
    }
  }

  /** Admission keeps the invariant, given what recording has established. */
  lemma AdmitKeepsInv(ext: Externals, s: State, current: nat, nexts: seq<(nat, Rule)>)
    requires Contract(ext) && Inv(s) && current in s.nodeToFile
    requires Recorded(s, current, nexts) && SelfParented(s, current, nexts)
    ensures Inv(Admit(ext, s, current, nexts))
  {
    var r := Admit(ext, s, current, nexts);
    RecordedKnown(s, current, nexts);
    AdmitKnown(ext, s, current, nexts);
    AdmitTakenSound(ext, s, current, nexts);
    AdmitSorted(ext, s, current, nexts);
  }

  // ---------------------------------------------------------------------------
  // One worker iteration and the whole run

  /**
   * One iteration of a worker: acquire a node, record the analyzer's rewrites of
   * its text, run the admission loop over `next_nodes`; nothing when no work is left.
   */
  function Step(ext: Externals, s: State): (r: Option<State>)
    ensures r.None? <==> s.pendingStrings == [] && s.pendingFiles == []
  {
    match Acquire(s)
    case None => None
    case Some(a) =>
      var current := a.1;
      var rec := Record(a.0, current, ext.analyze(TextOf(a.0, current)));
      Some(Admit(ext, rec.0, current, rec.1))
  }

  /** The admission loop keeps `taken_transitions[current]` sorted. */
  lemma {:induction false} AdmitCurrentSorted(ext: Externals, s: State, current: nat, nexts: seq<(nat, Rule)>)
    requires Sorted(TakenOf(s, current))
    ensures Sorted(TakenOf(Admit(ext, s, current, nexts), current))
    decreases |nexts|
  {
    if nexts != [] {
      var init := nexts[..|nexts| - 1];
      var last := nexts[|nexts| - 1];
      var prev := Admit(ext, s, current, init);
      AdmitCurrentSorted(ext, s, current, init);
      InsertSorted(TakenOf(prev, current), (last.1, last.0));
    }
  }

  /** Admission keeps every `taken_transitions` entry a std::set. */
  lemma AdmitSorted(ext: Externals, s: State, current: nat, nexts: seq<(nat, Rule)>)
    requires TakenSorted(s)
    ensures TakenSorted(Admit(ext, s, current, nexts))
  {
    var r := Admit(ext, s, current, nexts);
    AdmitCurrentSorted(ext, s, current, nexts);
    forall n | n in r.taken
      ensures Sorted(r.taken[n])
    {
      if n != current {
        assert TakenOf(r, n) == TakenOf(s, n);
      } else {
        assert TakenOf(r, n) == r.taken[n];
      }
    }
  }

  /** Each iteration keeps the invariant. */
  lemma StepKeepsInv(ext: Externals, s: State)
    requires Contract(ext) && Inv(s) && Step(ext, s).Some?
    ensures Inv(Step(ext, s).value)
  {
    var a := Acquire(s).value;
    var current := a.1;
    var rw := ext.analyze(TextOf(a.0, current));
    AcquireKeepsInv(s);
    var rec := Record(a.0, current, rw);
    RecordKeepsInv(a.0, current, rw);
    forall i | 0 <= i < |rec.1|
      ensures rec.1[i].0 in KidsOf(rec.0, current, rec.1[i].1)
    {
      RecordCandidateKid(a.0, current, rw, i);
    }
    if current in Ids(rec.1) {
      var i :| 0 <= i < |rec.1| && rec.1[i].0 == current;
      RecordCandidate(a.0, current, rw, i);
      StoreExtendsText(a.0, rec.0);
      RecordSelfRewrite(a.0, current, rw, i);
    }
    AdmitKeepsInv(ext, rec.0, current, rec.1);
  }

  /**
   * After an iteration, every text the analyzer returned for the processed node
   * is the text of a candidate recorded under its rule.
   */
  lemma StepRecords(ext: Externals, s: State, i: nat)
    requires Inv(s) && Acquire(s).Some?
    requires i < |ext.analyze(TextOf(s, Acquire(s).value.1))|
    ensures var current := Acquire(s).value.1;
      var rw := ext.analyze(TextOf(s, current));
      rw[i].1 in TextsOf(Step(ext, s).value, KidsOf(Step(ext, s).value, current, rw[i].0))
  {
    var a := Acquire(s).value;
    var current := a.1;
    var rw := ext.analyze(TextOf(a.0, current));
    AcquireKeepsInv(s);
    var rec := Record(a.0, current, rw);
    RecordCandidate(a.0, current, rw, i);
    RecordCandidateKid(a.0, current, rw, i);
    RecordStore(a.0, current, rw);
    var r := Admit(ext, rec.0, current, rec.1);
    assert r == Step(ext, s).value;
    var id := rec.1[i].0;
    assert TextOf(r, id) == rw[i].1;
    assert id in KidsOf(r, current, rw[i].0);
  }

  /** `n` turns of `step`, stopping early at the first turn that finds nothing to do. */
  function Iterate(step: State -> Option<State>, s: State, n: nat): State
    decreases n
  {
    if n == 0 then s
    else
      var p := Iterate(step, s, n - 1);
      match step(p)
      case None => p
      case Some(q) => q
  }

  /** Once `step` finds nothing to do, further turns change nothing. */
  lemma {:induction false} IterateStuck(step: State -> Option<State>, s: State, k: nat, m: nat)
    requires step(Iterate(step, s, k)).None? && k <= m
    ensures Iterate(step, s, m) == Iterate(step, s, k)
    decreases m
  {
    if m > k {
      IterateStuck(step, s, k, m - 1);
    }
  }

  /** The sequential run: `fuel` iterations, or fewer if the work runs out first. */
  function Run(ext: Externals, s: State, fuel: nat): State {
    Iterate(p => Step(ext, p), s, fuel)
  }

  /** Once the work has run out the run stays where it is, whatever fuel is left. */
  lemma RunStuck(ext: Externals, s: State, k: nat, m: nat)
    requires Step(ext, Run(ext, s, k)).None? && k <= m
    ensures Run(ext, s, m) == Run(ext, s, k)
  {
    IterateStuck(p => Step(ext, p), s, k, m);
  }

  /** Iterating a step that preserves `inv` preserves `inv`. */
  lemma {:induction false} IterateKeeps(step: State -> Option<State>, inv: State -> bool, s: State, n: nat)
    requires inv(s)
    requires forall x :: inv(x) && step(x).Some? ==> inv(step(x).value)
    ensures inv(Iterate(step, s, n))
    decreases n
  {
    if n > 0 {
      IterateKeeps(step, inv, s, n - 1);
    }
  }

  /** The run keeps the invariant. */
  lemma RunKeepsInv(ext: Externals, s: State, fuel: nat)
    requires Contract(ext) && Inv(s)
    ensures Inv(Run(ext, s, fuel))
  {
    forall x | Inv(x) && Step(ext, x).Some?
      ensures Inv(Step(ext, x).value)
    {
      StepKeepsInv(ext, x);
    }
    IterateKeeps(p => Step(ext, p), x => Inv(x), s, fuel);
  }

}
