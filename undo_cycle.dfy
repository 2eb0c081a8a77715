/**
 * Two rules that undo each other make the exploration cycle. Rule A rewrites
 * "x" to "y" and rule B rewrites "y" back to "x". The admission check
 * (src/logifix.cpp:236-247) composes B's result against the parent "x" and gets
 * "x". That is not a candidate of the parent under B, so the undo is taken.
 * `taken_transitions` then holds 0 -A-> 1 -B-> 0, the worker loop never drains
 * `pending_strings`, and `get_recursive_merge_result_for_node` (84-92) would
 * recurse forever.
 *
 * The witness runs on collaborators that meet `Contract`: a lexer that makes the
 * whole text one token, and a differ that aligns whole inputs as one segment.
 */
module UndoCycle {
  import opened Wrappers
  import opened EdgeSet
  import opened Nway
  import opened Collaborators
  import opened Exploration
  import opened Resolver
  import opened OrderedAdmission

  /** The whole text as one token. */
  function WholeLex(t: Text): Span {
    [Token(0, t)]
  }

  /** A diff of whole texts: one segment holding the base and every variant. */
  function WholeTextDiff(b: Text, vs: seq<Text>): seq<Segment> {
    [Segment(WholeLex(b), seq(|vs|, i requires 0 <= i < |vs| => WholeLex(vs[i])))]
  }

  /** The analyzer with the two rules that undo each other. */
  function UndoAnalyze(t: Text): seq<(Rule, Text)> {
    if t == "x" then [("A", "y")] else if t == "y" then [("B", "x")] else []
  }

  /** A token diff that aligns its whole inputs as one segment. */
  function OneSegment(b: Span, vs: seq<Span>): seq<Segment> {
    [Segment(b, vs)]
  }

  /** The merge of a conflict-free diff. */
  function MergeAll(d: seq<Segment>): Text {
    Render(Merged(d))
  }

  ghost function UndoExt(): Externals {
    Externals(UndoAnalyze, WholeLex, OneSegment, WholeTextDiff, Conflicting, MergeAll)
  }

  lemma RenderWhole(t: Text)
    ensures Render(WholeLex(t)) == t
  {
    assert WholeLex(t)[..0] == [];
  }

  lemma WholeLexLossless()
    ensures LosslessLex(WholeLex)
  {
    forall t
      ensures Render(WholeLex(t)) == t
    {
      RenderWhole(t);
    }
  }

  lemma OneSegmentContract()
    ensures TokenDiffContract(OneSegment)
  {
    forall b: Span, vs: seq<Span>
      ensures var d := OneSegment(b, vs);
        Aligned(d, |vs|) && Bases(d) == b && forall i :: 0 <= i < |vs| ==> VariantOf(d, i) == vs[i]
    {
      var d := OneSegment(b, vs);
      assert d[..0] == [];
    }
  }

  /** The whole-text diff of one base and its variants meets the text-diff contract. */
  lemma WholeTextDiffAt(b: Text, vs: seq<Text>)
    ensures var d := WholeTextDiff(b, vs);
      Aligned(d, |vs|) && Render(Bases(d)) == b &&
      (forall i :: 0 <= i < |vs| ==> Render(VariantOf(d, i)) == vs[i])
  {
    var d := WholeTextDiff(b, vs);
    assert d[..0] == [];
    RenderWhole(b);
    forall i | 0 <= i < |vs|
      ensures Render(VariantOf(d, i)) == vs[i]
    {
      RenderWhole(vs[i]);
    }
  }

  lemma WholeTextDiffContract()
    ensures TextDiffContract(WholeTextDiff)
  {
    forall b: Text, vs: seq<Text>
      ensures var d := WholeTextDiff(b, vs);
        Aligned(d, |vs|) && Render(Bases(d)) == b &&
        (forall i :: 0 <= i < |vs| ==> Render(VariantOf(d, i)) == vs[i])
    {
      WholeTextDiffAt(b, vs);
    }
  }

  /** The whole-text collaborators meet everything the engine assumes of them. */
  lemma UndoExtContract()
    ensures Contract(UndoExt())
  {
    WholeLexLossless();
    OneSegmentContract();
    WholeTextDiffContract();
  }

  /** Node 0 is "x", node 1 is "y"; each has taken the other, and 0 is queued again. */
  const Cycled := State(
    map["x" := 0, "y" := 1],
    map[0 := "x", 1 := "y"],
    [],
    [0],
    map[1 := ("A", 0), 0 := ("B", 1)],
    map[0 := map["A" := {1}], 1 := map["B" := {0}]],
    map[0 := [("A", 1)], 1 := [("B", 0)]])

  /** The state after the first iteration from the seed "x". */
  const FirstStep := State(
    map["x" := 0, "y" := 1],
    map[0 := "x", 1 := "y"],
    [],
    [1],
    map[1 := ("A", 0)],
    map[0 := map["A" := {1}]],
    map[0 := [("A", 1)]])

  /** The state after the third iteration: node 1 is queued again. */
  const ThirdStep := State(
    map["x" := 0, "y" := 1],
    map[0 := "x", 1 := "y"],
    [],
    [1],
    map[1 := ("A", 0), 0 := ("B", 1)],
    map[0 := map["A" := {1}], 1 := map["B" := {0}]],
    map[0 := [("A", 1)], 1 := [("B", 0)]])

  /** The composed text of one admission under the whole-text differ: the candidate's text when it differs from current's. */
  lemma ComposedWhole(s: State, pid: nat, current: nat, next: nat)
    requires TextOf(s, current) != TextOf(s, next)
    ensures ComposedFor(UndoExt(), s, pid, current, next) == TextOf(s, next)
  {
    var ext := UndoExt();
    var c, n := WholeLex(TextOf(s, current)), WholeLex(TextOf(s, next));
    var d := Compose.AdmissionDiff(ext, TextOf(s, pid), TextOf(s, current), TextOf(s, next));
    assert d == [Segment(WholeLex(TextOf(s, pid)), [c, n])];
    assert Compose.TwoWay(d);
    assert c != n by {
      assert c[0].content != n[0].content;
    }
    assert d[..0] == [];
    assert Compose.Composed(d) == Compose.Composed(d[..0]) + Compose.Piece(d[0]);
    RenderWhole(TextOf(s, next));
  }

  /** One recording pass of a single rewrite. */
  lemma RecordSingle(s: State, current: nat, rule: Rule, t: Text)
    ensures Record(s, current, [(rule, t)]) ==
      (RecordOne(s, current, rule, t).0, [(RecordOne(s, current, rule, t).1, rule)])
  {
    var rw := [(rule, t)];
    assert rw[..|rw| - 1] == [];
    assert Record(s, current, []) == (s, []);
    var one := RecordOne(s, current, rule, t);
    assert [] + [(one.1, rule)] == [(one.1, rule)];
  }

  /** Recording a candidate already recorded leaves the candidate map as it was. */
  lemma AddKidPresent(m: map<Rule, set<nat>>, rule: Rule, id: nat)
    requires rule in m && id in m[rule]
    ensures AddKid(m, rule, id) == m
  {
    assert m[rule] + {id} == m[rule];
  }

  /** The admission loop over a single candidate. */
  lemma AdmitSingle(s: State, current: nat, next: nat, rule: Rule)
    ensures Admit(UndoExt(), s, current, [(next, rule)]) == AdmitOne(UndoExt(), s, current, next, rule)
  {
    var ns := [(next, rule)];
    assert ns[..|ns| - 1] == [];
    assert Admit(UndoExt(), s, current, []) == s;
  }

  /** One iteration, given its acquire, record and admit stages. */
  lemma StepStages(s: State, a: State, current: nat, rule: Rule, t: Text, rec: State, next: nat, r: State)
    requires Acquire(s) == Some((a, current))
    requires UndoAnalyze(TextOf(a, current)) == [(rule, t)]
    requires RecordOne(a, current, rule, t) == (rec, next)
    requires AdmitOne(UndoExt(), rec, current, next, rule) == r
    ensures Step(UndoExt(), s) == Some(r)
  {
    RecordSingle(a, current, rule, t);
    AdmitSingle(rec, current, next, rule);
  }

  /** The two texts of the witness differ, and so do its two rules. */
  lemma Distinct()
    ensures "x" != "y" && "A" != "B"
  {
    assert "x"[0] != "y"[0];
    assert "A"[0] != "B"[0];
  }

  /** Taking the front of a one-element work queue. */
  lemma AcquireSingle(s: State, n: nat)
    requires s.pendingStrings == [n]
    ensures Acquire(s) == Some((s.(pendingStrings := []), n))
  {
    assert s.pendingStrings[1..] == [];
  }

  /** The store both texts are interned in. */
  const Store := map["x" := 0, "y" := 1]

  /** The seed "x" interned in the initial state. */
  const Seeded := State(map["x" := 0], map[0 := "x"], [0], [], map[], map[], map[])

  /** An admission whose composed text is interned but is no candidate of the parent under the rule takes the transition. */
  lemma AdmitNew(s: State, current: nat, next: nat, rule: Rule, t: Text)
    requires current in s.parent
    requires ComposedFor(UndoExt(), s, s.parent[current].1, current, next) == t
    requires t in s.fileToNode && s.fileToNode[t] !in KidsOf(s, s.parent[current].1, rule)
    ensures AdmitOne(UndoExt(), s, current, next, rule) == Take(s, current, next, rule)
  {
    assert Intern(s, t) == (s, s.fileToNode[t]);
  }

  /** The first node taken from `Seeded`, with the queue emptied. */
  const SeedTaken := Seeded.(pendingFiles := [])

  /** `SeedTaken` after recording rule A's rewrite of "x" into the new node "y". */
  const SeedRecorded := State(Store, map[0 := "x", 1 := "y"], [], [], map[1 := ("A", 0)], map[0 := map["A" := {1}]], map[])

  lemma SeedRecord()
    ensures Acquire(Seeded) == Some((SeedTaken, 0))
    ensures RecordOne(SeedTaken, 0, "A", "y") == (SeedRecorded, 1)
  {
    Distinct();
    var a := SeedTaken;
    assert Seeded.pendingFiles[1..] == [];
    var i := a.(fileToNode := Store, nodeToFile := map[0 := "x", 1 := "y"]);
    assert Intern(a, "y") == (i, 1);
    assert KidsMap(i, 0) == map[];
    assert AddKid(map[], "A", 1) == map["A" := {1}];
  }

  lemma SeedAdmit()
    ensures AdmitOne(UndoExt(), SeedRecorded, 0, 1, "A") == FirstStep
  {
    assert TakenOf(SeedRecorded, 0) == [];
    assert Take(SeedRecorded, 0, 1, "A") == FirstStep;
  }

  /** Seeding "x" and running one iteration takes rule A from "x" to the new node "y". */
  lemma SeedStep()
    ensures Step(UndoExt(), Exploration.AddFile(Initial, "x").0) == Some(FirstStep)
  {
    assert Exploration.AddFile(Initial, "x").0 == Seeded;
    SeedRecord();
    assert TextOf(SeedTaken, 0) == "x";
    SeedAdmit();
    StepStages(Seeded, SeedTaken, 0, "A", "y", SeedRecorded, 1, FirstStep);
  }

  /** `FirstStep` after recording rule B's rewrite of "y" back into node 0. */
  const UndoRecorded := FirstStep.(pendingStrings := [], parent := Cycled.parent, children := Cycled.children)

  lemma UndoRecord()
    ensures RecordOne(FirstStep.(pendingStrings := []), 1, "B", "x") == (UndoRecorded, 0)
  {
    Distinct();
    var a := FirstStep.(pendingStrings := []);
    assert Intern(a, "x") == (a, 0);
    assert KidsMap(a, 1) == map[];
    assert AddKid(map[], "B", 0) == map["B" := {0}];
  }

  lemma UndoComposed()
    ensures ComposedFor(UndoExt(), UndoRecorded, 0, 1, 0) == "x"
  {
    Distinct();
    ComposedWhole(UndoRecorded, 0, 1, 0);
  }

  lemma UndoTake()
    ensures Take(UndoRecorded, 1, 0, "B") == Cycled
  {
    var rec := UndoRecorded;
    assert TakenOf(rec, 1) == [];
    assert Insert([], ("B", 0)) == [("B", 0)];
    assert rec.pendingStrings + [0] == [0];
    assert rec.taken[1 := [("B", 0)]] == Cycled.taken;
  }

  lemma UndoAdmit()
    ensures AdmitOne(UndoExt(), UndoRecorded, 1, 0, "B") == Cycled
  {
    Distinct();
    UndoComposed();
    assert KidsOf(UndoRecorded, 0, "B") == {};
    AdmitNew(UndoRecorded, 1, 0, "B", "x");
    UndoTake();
  }

  /** From `FirstStep`, rule B's undo is composed against the parent "x", found new there, and taken. */
  lemma UndoTaken()
    ensures Step(UndoExt(), FirstStep) == Some(Cycled)
  {
    var a := FirstStep.(pendingStrings := []);
    AcquireSingle(FirstStep, 1);
    assert TextOf(a, 1) == "y";
    UndoRecord();
    UndoAdmit();
    StepStages(FirstStep, a, 1, "B", "x", UndoRecorded, 0, Cycled);
  }

  /** `Cycled` with its queue emptied: recording node 0's rewrite again changes nothing. */
  const RedoTaken0 := Cycled.(pendingStrings := [])

  lemma RedoRecord()
    ensures RecordOne(RedoTaken0, 0, "A", "y") == (RedoTaken0, 1)
  {
    Distinct();
    var a := RedoTaken0;
    assert Intern(a, "y") == (a, 1);
    assert KidsMap(a, 0) == map["A" := {1}];
    AddKidPresent(map["A" := {1}], "A", 1);
    assert a.parent[1 := ("A", 0)] == a.parent;
    assert a.children[0 := map["A" := {1}]] == a.children;
  }

  lemma RedoComposed()
    ensures ComposedFor(UndoExt(), RedoTaken0, 1, 0, 1) == "y"
  {
    Distinct();
    ComposedWhole(RedoTaken0, 1, 0, 1);
  }

  lemma RedoTake()
    ensures Take(RedoTaken0, 0, 1, "A") == ThirdStep
  {
    var a := RedoTaken0;
    assert Insert([("A", 1)], ("A", 1)) == [("A", 1)];
    assert a.taken[0 := [("A", 1)]] == a.taken;
  }

  lemma RedoAdmit()
    ensures AdmitOne(UndoExt(), RedoTaken0, 0, 1, "A") == ThirdStep
  {
    Distinct();
    RedoComposed();
    assert KidsOf(RedoTaken0, 1, "A") == {};
    AdmitNew(RedoTaken0, 0, 1, "A", "y");
    RedoTake();
  }

  /** From `Cycled`, node 0 redoes rule A; the composition against its new parent "y" is "y", new there, so it is taken. */
  lemma RedoTaken()
    ensures Step(UndoExt(), Cycled) == Some(ThirdStep)
  {
    AcquireSingle(Cycled, 0);
    assert TextOf(RedoTaken0, 0) == "x";
    RedoRecord();
    RedoAdmit();
    StepStages(Cycled, RedoTaken0, 0, "A", "y", RedoTaken0, 1, ThirdStep);
  }

  /** `ThirdStep` with its queue emptied: recording node 1's rewrite again changes nothing. */
  const UndoTaken1 := ThirdStep.(pendingStrings := [])

  lemma UndoAgainRecord()
    ensures RecordOne(UndoTaken1, 1, "B", "x") == (UndoTaken1, 0)
  {
    Distinct();
    var a := UndoTaken1;
    assert Intern(a, "x") == (a, 0);
    assert KidsMap(a, 1) == map["B" := {0}];
    AddKidPresent(map["B" := {0}], "B", 0);
    assert a.parent[0 := ("B", 1)] == a.parent;
    assert a.children[1 := map["B" := {0}]] == a.children;
  }

  lemma UndoAgainComposed()
    ensures ComposedFor(UndoExt(), UndoTaken1, 0, 1, 0) == "x"
  {
    Distinct();
    ComposedWhole(UndoTaken1, 0, 1, 0);
  }

  lemma UndoAgainTake()
    ensures Take(UndoTaken1, 1, 0, "B") == Cycled
  {
    var a := UndoTaken1;
    assert Insert([("B", 0)], ("B", 0)) == [("B", 0)];
    assert a.taken[1 := [("B", 0)]] == a.taken;
  }

  lemma UndoAgainAdmit()
    ensures AdmitOne(UndoExt(), UndoTaken1, 1, 0, "B") == Cycled
  {
    Distinct();
    UndoAgainComposed();
    assert KidsOf(UndoTaken1, 0, "B") == {};
    AdmitNew(UndoTaken1, 1, 0, "B", "x");
    UndoAgainTake();
  }

  /** From `ThirdStep`, node 1 undoes again and the state is `Cycled` once more. */
  lemma UndoAgain()
    ensures Step(UndoExt(), ThirdStep) == Some(Cycled)
  {
    AcquireSingle(ThirdStep, 1);
    assert TextOf(UndoTaken1, 1) == "y";
    UndoAgainRecord();
    UndoAgainAdmit();
    StepStages(ThirdStep, UndoTaken1, 1, "B", "x", UndoTaken1, 0, Cycled);
  }

  /**
   * The code as written: with collaborators meeting `Contract`, two iterations from
   * the seed "x" reach a state with the cycle 0 -A-> 1 -B-> 0; two more return to it,
   * so the queue never drains; and no rank orders its taken transitions, so the
   * resolver's recursion has no end.
   */
  lemma UndoCycleRepeats()
    ensures Contract(UndoExt())
    ensures Step(UndoExt(), Step(UndoExt(), Exploration.AddFile(Initial, "x").0).value) == Some(Cycled)
    ensures Step(UndoExt(), Step(UndoExt(), Cycled).value) == Some(Cycled)
    ensures Cycled.pendingStrings != []
    ensures forall rank :: !Ranked(Cycled, rank)
  {
    UndoExtContract();
    SeedStep();
    UndoTaken();
    RedoTaken();
    UndoAgain();
    forall rank
      ensures !Ranked(Cycled, rank)
    {
      assert Cycled.taken[0][0].1 == 1 && Cycled.taken[1][0].1 == 0;
    }
  }

  /** The corrected loop over a single candidate. */
  lemma AdmitOrderedSingle(s: State, current: nat, next: nat, rule: Rule)
    ensures AdmitOrdered(UndoExt(), s, current, [(next, rule)]) == AdmitOneOrdered(UndoExt(), s, current, next, rule)
  {
    var ns := [(next, rule)];
    assert ns[..|ns| - 1] == [];
  }

  /** One corrected iteration, given its acquire, record and admit stages. */
  lemma StepOrderedStages(s: State, a: State, current: nat, rule: Rule, t: Text, rec: State, next: nat, r: State)
    requires Acquire(s) == Some((a, current))
    requires UndoAnalyze(TextOf(a, current)) == [(rule, t)]
    requires RecordOne(a, current, rule, t) == (rec, next)
    requires AdmitOneOrdered(UndoExt(), rec, current, next, rule) == r
    ensures StepOrdered(UndoExt(), s) == Some(r)
  {
    RecordSingle(a, current, rule, t);
    AdmitOrderedSingle(rec, current, next, rule);
  }

  /** The corrected engine's first iteration from the seed "x" is the one as written. */
  lemma OrderedSeedStep()
    ensures StepOrdered(UndoExt(), Exploration.AddFile(Initial, "x").0) == Some(FirstStep)
  {
    assert Exploration.AddFile(Initial, "x").0 == Seeded;
    SeedRecord();
    assert TextOf(SeedTaken, 0) == "x";
    SeedAdmit();
    StepOrderedStages(Seeded, SeedTaken, 0, "A", "y", SeedRecorded, 1, FirstStep);
  }

  /** From `FirstStep`, the corrected engine refuses the undo back to the older node 0. */
  lemma OrderedUndoStep()
    ensures StepOrdered(UndoExt(), FirstStep) == Some(UndoRecorded)
  {
    var a := FirstStep.(pendingStrings := []);
    AcquireSingle(FirstStep, 1);
    assert TextOf(a, 1) == "y";
    UndoRecord();
    StepOrderedStages(FirstStep, a, 1, "B", "x", UndoRecorded, 0, UndoRecorded);
  }

  /**
   * The corrected engine on the same input: the first iteration is as before, the
   * undo back to the older node 0 is refused, and the run ends with the queues
   * empty and the single transition 0 -A-> 1.
   */
  lemma OrderedUndoRefused()
    ensures StepOrdered(UndoExt(), Exploration.AddFile(Initial, "x").0) == Some(FirstStep)
    ensures StepOrdered(UndoExt(), FirstStep) == Some(UndoRecorded)
    ensures StepOrdered(UndoExt(), UndoRecorded) == None
    ensures UndoRecorded.taken == map[0 := [("A", 1)]]
  {
    OrderedSeedStep();
    OrderedUndoStep();
  }
}
