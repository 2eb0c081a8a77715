/**
 * The external collaborators of the exploration engine, held abstract: the
 * analyzer (`get_patches`), the lexer (`sjp::lex`) and the n-way differ
 * (`nway::diff`, `nway::has_conflict`, `nway::merge`). Each is a function-valued
 * field of `Externals`, and what the engine relies on is stated once, as the
 * predicate `Contract`.
 */
module Collaborators {
  import opened EdgeSet
  import opened Nway

  /**
   * The external functions. `analyze` is `get_patches` as the engine sees it: the
   * `(rule, rewritten text)` pairs of its result set, in the set's iteration order.
   * `tokenDiff` is `nway::diff` over lexed token streams (the admission check);
   * `textDiff` is `nway::diff` over texts (the merge resolver).
   */
  datatype Externals = Externals(
    analyze: Text -> seq<(Rule, Text)>,
    lex: Text -> Span,
    tokenDiff: (Span, seq<Span>) -> seq<Segment>,
    textDiff: (Text, seq<Text>) -> seq<Segment>,
    hasConflict: seq<Segment> -> bool,
    merge: seq<Segment> -> Text)

  /** Lexing loses nothing: the token contents spell the text again. */
  ghost predicate LosslessLex(lex: Text -> Span) {
    forall t :: Render(lex(t)) == t
  }

  ghost predicate TokenDiffContract(tokenDiff: (Span, seq<Span>) -> seq<Segment>) {
    forall b, vs ::
      var d := tokenDiff(b, vs);
      Aligned(d, |vs|) && Bases(d) == b &&
      (forall i :: 0 <= i < |vs| ==> VariantOf(d, i) == vs[i]) &&
      (forall i, j, k :: 0 <= i < |vs| && 0 <= j < |vs| && vs[i] == vs[j] && 0 <= k < |d| ==>
         d[k].variants[i] == d[k].variants[j]) &&
      (forall i, k :: 0 <= i < |vs| && vs[i] == b && 0 <= k < |d| ==> d[k].variants[i] == d[k].base)
  }

  ghost predicate TextDiffContract(textDiff: (Text, seq<Text>) -> seq<Segment>) {
    forall b, vs ::
      var d := textDiff(b, vs);
      Aligned(d, |vs|) && Render(Bases(d)) == b &&
      (forall i :: 0 <= i < |vs| ==> Render(VariantOf(d, i)) == vs[i]) &&
      (forall i, j, k :: 0 <= i < |vs| && 0 <= j < |vs| && vs[i] == vs[j] && 0 <= k < |d| ==>
         d[k].variants[i] == d[k].variants[j]) &&
      (forall i, k :: 0 <= i < |vs| && vs[i] == b && 0 <= k < |d| ==> d[k].variants[i] == d[k].base)
  }

  ghost predicate MergeContract(hasConflict: seq<Segment> -> bool, merge: seq<Segment> -> Text) {
    (forall d :: hasConflict(d) == Conflicting(d)) &&
    (forall d :: !Conflicting(d) ==> merge(d) == Render(Merged(d)))
  }

  /** Everything the engine assumes of its external collaborators. */
  ghost predicate Contract(ext: Externals) {
    LosslessLex(ext.lex) && TokenDiffContract(ext.tokenDiff) && TextDiffContract(ext.textDiff) &&
    MergeContract(ext.hasConflict, ext.merge)
  }

  /** n-way merge of identical variants: no conflict, and the result is that variant. */
  lemma MergeIdentical(ext: Externals, b: Text, vs: seq<Text>)
    requires Contract(ext)
    requires |vs| > 0 && forall i :: 0 <= i < |vs| ==> vs[i] == vs[0]
    ensures !ext.hasConflict(ext.textDiff(b, vs))
    ensures ext.merge(ext.textDiff(b, vs)) == vs[0]
  {
    var d := ext.textDiff(b, vs);
    assert Aligned(d, |vs|);
    forall k, i | 0 <= k < |d| && 0 <= i < |d[k].variants|
      ensures d[k].variants[i] == d[k].variants[0]
    {
      assert vs[i] == vs[0];
    }
    MergedUniform(d);
  }

  /** n-way merge against no variant at all gives the base back. */
  lemma MergeNothing(ext: Externals, b: Text)
    requires Contract(ext)
    ensures !ext.hasConflict(ext.textDiff(b, []))
    ensures ext.merge(ext.textDiff(b, [])) == b
  {
    var d := ext.textDiff(b, []);
    MergedBare(d);
  }
}
