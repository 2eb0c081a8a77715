/**
 * The data the n-way differ works on: texts, lexed token streams, and a diff as
 * a sequence of aligned segments. `Merged` and `Conflicting` state what
 * `nway::merge` and `nway::has_conflict` are taken to do; the differ's own code
 * is not part of this model.
 */
module Nway {
  import opened EdgeSet

  /** Source texts are std::strings. */
  type Text = string

  /** A lexer token `(token_type, content)`; the kind is kept only as a number. */
  datatype Token = Token(kind: nat, content: string)

  /** An aligned stretch of tokens. */
  type Span = seq<Token>

  /** One aligned segment of an n-way diff: the base span and one span per variant (`[o, cands]`). */
  datatype Segment = Segment(base: Span, variants: seq<Span>)

  /** The text a span stands for: its token contents in order. */
  function Render(s: Span): Text
    decreases |s|
  {
    if s == [] then "" else Render(s[..|s| - 1]) + s[|s| - 1].content
  }

  lemma {:induction false} RenderAppend(a: Span, b: Span)
    ensures Render(a + b) == Render(a) + Render(b)
    decreases |b|
  {
    if b == [] {
      assert a + b == a;
    } else {
      var b' := b[..|b| - 1];
      assert (a + b)[..|a + b| - 1] == a + b';
      RenderAppend(a, b');
    }
  }

  /** Every segment carries exactly `n` variant spans. */
  ghost predicate Aligned(d: seq<Segment>, n: nat) {
    forall k :: 0 <= k < |d| ==> |d[k].variants| == n
  }

  /** The base spans of a diff, concatenated. */
  function Bases(d: seq<Segment>): Span
    decreases |d|
  {
    if d == [] then [] else Bases(d[..|d| - 1]) + d[|d| - 1].base
  }

  /** Variant `i`'s spans of a diff, concatenated. */
  function VariantOf(d: seq<Segment>, i: nat): Span
    requires forall k :: 0 <= k < |d| ==> i < |d[k].variants|
    decreases |d|
  {
    if d == [] then [] else VariantOf(d[..|d| - 1], i) + d[|d| - 1].variants[i]
  }

  /** The n-way "one side changed" choice for one segment: the first variant that differs from the base, else the base. */
  function Pick(base: Span, vs: seq<Span>): Span
    decreases |vs|
  {
    if vs == [] then base else if vs[0] != base then vs[0] else Pick(base, vs[1..])
  }

  /** The merged token stream of a diff: `Pick` of every segment. */
  function Merged(d: seq<Segment>): Span
    decreases |d|
  {
    if d == [] then [] else Merged(d[..|d| - 1]) + Pick(d[|d| - 1].base, d[|d| - 1].variants)
  }

  /** Two variants change one segment in two different ways. */
  ghost predicate Conflicting(d: seq<Segment>) {
    exists k, i, j :: 0 <= k < |d| && 0 <= i < |d[k].variants| && 0 <= j < |d[k].variants| &&
      d[k].variants[i] != d[k].base && d[k].variants[j] != d[k].base && d[k].variants[i] != d[k].variants[j]
  }

  /** One segment whose variants all agree: `Pick` yields that common variant. */
  lemma {:induction false} PickUniform(base: Span, vs: seq<Span>)
    requires |vs| > 0 && forall i :: 0 <= i < |vs| ==> vs[i] == vs[0]
    ensures Pick(base, vs) == vs[0]
    decreases |vs|
  {
    if vs[0] == base && |vs| > 1 {
      PickUniform(base, vs[1..]);
    }
  }

  /** Where every segment's variants agree, the merged stream is variant 0 and nothing conflicts. */
  lemma {:induction false} MergedUniform(d: seq<Segment>)
    requires forall k :: 0 <= k < |d| ==> |d[k].variants| > 0
    requires forall k, i :: 0 <= k < |d| && 0 <= i < |d[k].variants| ==> d[k].variants[i] == d[k].variants[0]
    ensures Merged(d) == VariantOf(d, 0)
    ensures !Conflicting(d)
    decreases |d|
  {
    if d != [] {
      var last := d[|d| - 1];
      MergedUniform(d[..|d| - 1]);
      PickUniform(last.base, last.variants);
    }
  }

  /** A diff with no variants merges to its base. */
  lemma {:induction false} MergedBare(d: seq<Segment>)
    requires Aligned(d, 0)
    ensures Merged(d) == Bases(d)
    ensures !Conflicting(d)
    decreases |d|
  {
    if d != [] {
      MergedBare(d[..|d| - 1]);
    }
  }

}
