/**
 * The segment-composition loop of the admission check (src/logifix.cpp:217-233):
 * from a 3-way diff whose base is the parent's text and whose two variants are
 * the current node's text and the candidate child's text, it builds "this rule
 * applied directly to the parent": the parent's span wherever current and child
 * agree, the child's span wherever they differ.
 */
module Compose {
  import opened Nway
  import opened Collaborators

  /** Every segment carries the two variants `cands[0]` and `cands[1]` the loop reads. */
  predicate TwoWay(d: seq<Segment>) {
    forall k :: 0 <= k < |d| ==> |d[k].variants| >= 2
  }

  /** What one segment contributes to the composed text. */
  function Piece(seg: Segment): Text
    requires |seg.variants| >= 2
  {
    if seg.variants[0] == seg.variants[1] then Render(seg.base) else Render(seg.variants[1])
  }

  /** The composed text: the segments' pieces, left to right. */
  function Composed(d: seq<Segment>): Text
    requires TwoWay(d)
    decreases |d|
  {
    if d == [] then "" else Composed(d[..|d| - 1]) + Piece(d[|d| - 1])
  }

  /** The loop as the source writes it: `result += content` token by token. */
  method ComposeSegments(d: seq<Segment>) returns (result: Text)
    requires TwoWay(d)
    ensures result == Composed(d)
  {
    result := "";
    for k := 0 to |d|
      invariant result == Composed(d[..k])
    {
      assert d[..k + 1][..k] == d[..k];
      var o := d[k].base;
      var a := d[k].variants[0];
      var b := d[k].variants[1];
      var span := if a == b then o else b;
      for t := 0 to |span|
        invariant result == Composed(d[..k]) + Render(span[..t])
      {
        assert span[..t + 1][..t] == span[..t];
        result := result + span[t].content;
      }
      assert span[..|span|] == span;
    }
    assert d[..|d|] == d;
  }

  /** Where current and child agree on every segment, the composition is the parent's token stream. */
  lemma {:induction false} ComposedAgreeing(d: seq<Segment>)
    requires TwoWay(d)
    requires forall k :: 0 <= k < |d| ==> d[k].variants[0] == d[k].variants[1]
    ensures Composed(d) == Render(Bases(d))
    decreases |d|
  {
    if d != [] {
      ComposedAgreeing(d[..|d| - 1]);
      RenderAppend(Bases(d[..|d| - 1]), d[|d| - 1].base);
    }
  }

  /** Where current equals the parent on every segment, the composition is the child's token stream. */
  lemma {:induction false} ComposedOverUnchanged(d: seq<Segment>)
    requires TwoWay(d)
    requires forall k :: 0 <= k < |d| ==> d[k].variants[0] == d[k].base
    ensures Composed(d) == Render(VariantOf(d, 1))
    decreases |d|
  {
    if d != [] {
      ComposedOverUnchanged(d[..|d| - 1]);
      RenderAppend(VariantOf(d[..|d| - 1], 1), d[|d| - 1].variants[1]);
    }
  }

  /** The diff of the admission check: base the parent, variants current and candidate. */
  function AdmissionDiff(ext: Externals, parentText: Text, currentText: Text, nextText: Text): seq<Segment> {
    ext.tokenDiff(ext.lex(parentText), [ext.lex(currentText), ext.lex(nextText)])
  }

  lemma AdmissionDiffTwoWay(ext: Externals, p: Text, c: Text, n: Text)
    requires Contract(ext)
    ensures TwoWay(AdmissionDiff(ext, p, c, n))
  {
    var d := AdmissionDiff(ext, p, c, n);
    assert Aligned(d, 2);
  }

  /** A candidate equal to current composes back to the parent: the rule changed nothing new. */
  lemma ComposeRepeat(ext: Externals, p: Text, c: Text)
    requires Contract(ext)
    ensures TwoWay(AdmissionDiff(ext, p, c, c))
    ensures Composed(AdmissionDiff(ext, p, c, c)) == p
  {
    var d := AdmissionDiff(ext, p, c, c);
    var vs := [ext.lex(c), ext.lex(c)];
    assert Aligned(d, 2);
    forall k | 0 <= k < |d|
      ensures d[k].variants[0] == d[k].variants[1]
    {
      assert vs[0] == vs[1];
    }
    ComposedAgreeing(d);
    assert Render(ext.lex(p)) == p;
  }

  /** When current's text is the parent's, the composition is the candidate itself. */
  lemma ComposeOverUnchanged(ext: Externals, p: Text, n: Text)
    requires Contract(ext)
    ensures TwoWay(AdmissionDiff(ext, p, p, n))
    ensures Composed(AdmissionDiff(ext, p, p, n)) == n
  {
    var d := AdmissionDiff(ext, p, p, n);
    var vs := [ext.lex(p), ext.lex(n)];
    assert Aligned(d, 2);
    forall k | 0 <= k < |d|
      ensures d[k].variants[0] == d[k].base
    {
      assert vs[0] == ext.lex(p);
    }
    ComposedOverUnchanged(d);
    assert VariantOf(d, 1) == vs[1];
    assert Render(ext.lex(n)) == n;
  }

}
