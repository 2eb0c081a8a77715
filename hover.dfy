/**
 * `repair::get_hovered_node` (repair.cpp:127-153): starting from a file's AST
 * root, repeatedly step into a child whose token range `[start, end]` contains
 * the buffer position, until no child does. Single children (`get_parent_of`)
 * are scanned first, then list children (`get_parent_of_list`), each list in
 * order; null children are skipped, and the LAST matching child scanned wins.
 */
module Repair {
  import opened Wrappers

  /**
   * An AST node: its token range, its single children and its lists of
   * children, each in the iteration order of the node's maps. A null
   * `node_ptr` is `None`.
   */
  datatype Ast = Ast(start: nat, end: nat, singles: seq<Option<Ast>>, lists: seq<Children>)

  /** One `std::vector<node_ptr>` of list children. */
  datatype Children = Children(nodes: seq<Option<Ast>>)

  /** The node's token range contains the position (both ends inclusive). */
  predicate Covers(t: Ast, pos: nat) {
    t.start <= pos <= t.end
  }

  /** The lists of children, one after the other. */
  function Flatten(ls: seq<Children>): seq<Option<Ast>>
    decreases |ls|
  {
    if ls == [] then [] else Flatten(ls[..|ls| - 1]) + ls[|ls| - 1].nodes
  }

  /** An entry of the flattened lists sits at some place of some list. */
  lemma {:induction false} FlattenMember(ls: seq<Children>, x: Option<Ast>)
    requires x in Flatten(ls)
    ensures exists i, k :: 0 <= i < |ls| && 0 <= k < |ls[i].nodes| && ls[i].nodes[k] == x
    decreases |ls|
  {
    var n := |ls| - 1;
    if x in Flatten(ls[..n]) {
      FlattenMember(ls[..n], x);
      var i, k :| 0 <= i < n && 0 <= k < |ls[..n][i].nodes| && ls[..n][i].nodes[k] == x;
      assert ls[i] == ls[..n][i];
    } else {
      var k :| 0 <= k < |ls[n].nodes| && ls[n].nodes[k] == x;
    }
  }

  /** The children of a node in the order the loop body visits them; every one is a proper part of the node. */
  function ScanOrder(t: Ast): (r: seq<Option<Ast>>)
    ensures forall x :: x in r ==> x < t
  {
    var r := t.singles + Flatten(t.lists);
    assert forall x :: x in r ==> x < t by {
      forall x | x in r
        ensures x < t
      {
        if x in t.singles {
          var k :| 0 <= k < |t.singles| && t.singles[k] == x;
        } else {
          FlattenMember(t.lists, x);
          var i, k :| 0 <= i < |t.lists| && 0 <= k < |t.lists[i].nodes| && t.lists[i].nodes[k] == x;
          assert t.lists[i] < t;
        }
      }
    }
    r
  }

  /** The last non-null entry of `cs` whose range contains `pos`: the `candidate` after a scan. */
  function LastCovering(cs: seq<Option<Ast>>, pos: nat): (r: Option<Ast>)
    ensures r.Some? ==> r in cs && Covers(r.value, pos)
    ensures r.None? ==> forall i :: 0 <= i < |cs| && cs[i].Some? ==> !Covers(cs[i].value, pos)
    decreases |cs|
  {
    if cs == [] then None
    else if cs[|cs| - 1].Some? && Covers(cs[|cs| - 1].value, pos) then cs[|cs| - 1]
    else LastCovering(cs[..|cs| - 1], pos)
  }

  /** Of several matching children, the one scanned last is chosen. */
  lemma {:induction false} LastCoveringIsLast(cs: seq<Option<Ast>>, pos: nat, i: nat)
    requires i < |cs| && cs[i].Some? && Covers(cs[i].value, pos)
    requires forall j :: i < j < |cs| && cs[j].Some? ==> !Covers(cs[j].value, pos)
    ensures LastCovering(cs, pos) == cs[i]
    decreases |cs|
  {
    var n := |cs| - 1;
    if i < n {
      assert forall j :: i < j < n ==> cs[..n][j] == cs[j];
      LastCoveringIsLast(cs[..n], pos, i);
    }
  }

  /** The child the loop steps into, if any. */
  function Candidate(t: Ast, pos: nat): Option<Ast> {
    LastCovering(ScanOrder(t), pos)
  }

  /** `d` is `t` or lies below it, reached through non-null children. */
  ghost predicate Within(d: Ast, t: Ast)
    decreases t
  {
    d == t || exists c :: c in ScanOrder(t) && c.Some? && Within(d, c.value)
  }

  /** The node the descent ends on. */
  function Hovered(t: Ast, pos: nat): (r: Ast)
    ensures Within(r, t)
    ensures r == t || Covers(r, pos)
    ensures forall c :: c in ScanOrder(r) && c.Some? ==> !Covers(c.value, pos)
    decreases t
  {
    match Candidate(t, pos)
    case None => t
    case Some(c) =>
      assert Some(c) in ScanOrder(t);
      var r := Hovered(c, pos);
      assert Within(r, t) by {
        assert Some(c) in ScanOrder(t) && Within(r, c);
      }
      r
  }

  /** Descending again from the hovered node stays on it. */
  lemma HoveredStable(t: Ast, pos: nat)
    ensures Hovered(Hovered(t, pos), pos) == Hovered(t, pos)
  {
    var r := Hovered(t, pos);
    assert Candidate(r, pos).None?;
  }

  /** Scanning `a` then `b`: a match in `b` overrides whatever `a` found. */
  lemma {:induction false} LastCoveringAppend(a: seq<Option<Ast>>, b: seq<Option<Ast>>, pos: nat)
    ensures LastCovering(a + b, pos) ==
      if LastCovering(b, pos).Some? then LastCovering(b, pos) else LastCovering(a, pos)
    decreases |b|
  {
    if b == [] {
      assert a + b == a;
    } else {
      assert (a + b)[..|a + b| - 1] == a + b[..|b| - 1];
      LastCoveringAppend(a, b[..|b| - 1], pos);
    }
  }

  /** Scanning one more list of children after the single children and the earlier lists. */
  lemma ScanNextList(singles: seq<Option<Ast>>, lists: seq<Children>, i: nat, pos: nat)
    requires i < |lists|
    ensures LastCovering(singles + Flatten(lists[..i + 1]), pos) ==
      if LastCovering(lists[i].nodes, pos).Some? then LastCovering(lists[i].nodes, pos)
      else LastCovering(singles + Flatten(lists[..i]), pos)
  {
    var seen := singles + Flatten(lists[..i]);
    assert lists[..i + 1][..i] == lists[..i];
    assert Flatten(lists[..i + 1]) == Flatten(lists[..i]) + lists[i].nodes;
    assert singles + Flatten(lists[..i + 1]) == seen + lists[i].nodes;
    LastCoveringAppend(seen, lists[i].nodes, pos);
  }

  /** One scan over a run of children (lines 133-139, and 141-147 for one list), updating `candidate`. */
  method ScanChildren(children: seq<Option<Ast>>, pos: nat, candidate: Option<Ast>) returns (r: Option<Ast>)
    ensures r == if LastCovering(children, pos).Some? then LastCovering(children, pos) else candidate
  {
    r := candidate;
    for j := 0 to |children|
      invariant r == if LastCovering(children[..j], pos).Some? then LastCovering(children[..j], pos) else candidate
    {
      assert children[..j + 1][..j] == children[..j];
      var child := children[j];
      if child.Some? && child.value.start <= pos && child.value.end >= pos {
        r := child;
      }
    }
    assert children[..|children|] == children;
  }

  /** One pass of the loop body (lines 132-148): the child the descent steps into, if any. */
  method ScanNode(curr: Ast, pos: nat) returns (candidate: Option<Ast>)
    ensures candidate == Candidate(curr, pos)
  {
    var singles, lists := curr.singles, curr.lists;
    candidate := ScanChildren(singles, pos, None);
    assert singles + Flatten(lists[..0]) == singles;
    for i := 0 to |lists|
      invariant candidate == LastCovering(singles + Flatten(lists[..i]), pos)
    {
      candidate := ScanChildren(lists[i].nodes, pos, candidate);
      ScanNextList(singles, lists, i, pos);
    }
    assert lists[..|lists|] == lists;
  }

  /** `get_hovered_node` on the root of the file's AST; a null root comes back as it is. */
  method GetHoveredNode(root: Option<Ast>, pos: nat) returns (r: Option<Ast>)
    ensures r.None? <==> root.None?
    ensures root.Some? ==> r == Some(Hovered(root.value, pos))
  {
    if root.None? {
      return root;
    }
    var curr := root.value;
    while true
      invariant Hovered(curr, pos) == Hovered(root.value, pos)
      decreases curr
    {
      var candidate := ScanNode(curr, pos);
      if candidate.None? {
        break;
      }
      assert candidate in ScanOrder(curr);
      curr := candidate.value;
    }
    return Some(curr);
  }

}
