// Rendering: every segment's docs go through the Markdown renderer and its
// code, padded with two spaces, through the syntax highlighter. The two
// renderers are external programs in golit; here they are parameters, so
// everything below holds for any pair of renderers.

module Render {
  import opened Segment

  /** Appended to every code fragment before it is highlighted. */
  const CodePadding: string := "  "

  /** One segment after rendering. */
  function RenderSeg(s: Seg, renderDocs: string -> string, renderCode: string -> string): Seg {
    s.(docsRendered := renderDocs(s.docs), codeRendered := renderCode(s.code + CodePadding))
  }

  /** Every segment rendered: the list keeps its length and order, each
      segment keeps its raw docs and code, and its rendered fields are the
      renderers' output on its docs and on its padded code. */
  function RenderAll(segs: seq<Seg>, renderDocs: string -> string, renderCode: string -> string): (r: seq<Seg>)
    ensures |r| == |segs|
    ensures forall i :: 0 <= i < |segs| ==>
              r[i].docs == segs[i].docs && r[i].code == segs[i].code &&
              r[i].docsRendered == renderDocs(segs[i].docs) &&
              r[i].codeRendered == renderCode(segs[i].code + CodePadding)
  {
    if segs == [] then []
    else RenderAll(segs[..|segs| - 1], renderDocs, renderCode) + [RenderSeg(segs[|segs| - 1], renderDocs, renderCode)]
  }

  /** The render loop: each segment's rendered fields are overwritten in
      place, one segment per iteration. */
  method Render(segs: seq<Seg>, renderDocs: string -> string, renderCode: string -> string) returns (out: seq<Seg>)
    ensures out == RenderAll(segs, renderDocs, renderCode)
  {
    out := segs;
    for i := 0 to |out|
      invariant |out| == |segs|
      invariant out[..i] == RenderAll(segs[..i], renderDocs, renderCode)
      invariant out[i..] == segs[i..]
    {
      var seg := out[i];
      assert segs[..i + 1] == segs[..i] + [segs[i]];
      out := out[i := seg.(docsRendered := renderDocs(seg.docs),
                           codeRendered := renderCode(seg.code + CodePadding))];
      assert out[..i + 1] == out[..i] + [out[i]];
    }
    assert out == out[..|segs|];
    assert segs == segs[..|segs|];
  }

  /** Rendering reads only the raw docs and code, so rendering again
      changes nothing. */
  lemma RenderIdempotent(segs: seq<Seg>, renderDocs: string -> string, renderCode: string -> string)
    ensures RenderAll(RenderAll(segs, renderDocs, renderCode), renderDocs, renderCode) ==
            RenderAll(segs, renderDocs, renderCode)
  {
  }

  /** Two segment lists with the same raw text render to the same list,
      whatever their rendered fields held before. */
  lemma RenderIgnoresOldOutput(a: seq<Seg>, b: seq<Seg>, renderDocs: string -> string, renderCode: string -> string)
    requires |a| == |b|
    requires forall i :: 0 <= i < |a| ==> a[i].docs == b[i].docs && a[i].code == b[i].code
    ensures RenderAll(a, renderDocs, renderCode) == RenderAll(b, renderDocs, renderCode)
  {
  }

  /** Rendering works segment by segment: rendering a concatenation is
      concatenating the renderings. */
  lemma {:induction false} RenderAppend(a: seq<Seg>, b: seq<Seg>, renderDocs: string -> string, renderCode: string -> string)
    ensures RenderAll(a + b, renderDocs, renderCode) ==
            RenderAll(a, renderDocs, renderCode) + RenderAll(b, renderDocs, renderCode)
  {
    var ra, rb, rab := RenderAll(a, renderDocs, renderCode), RenderAll(b, renderDocs, renderCode),
                       RenderAll(a + b, renderDocs, renderCode);
    assert forall i :: 0 <= i < |a| ==> (a + b)[i] == a[i];
    assert forall i :: |a| <= i < |a| + |b| ==> (a + b)[i] == b[i - |a|];
    assert rab == ra + rb;
  }
}
