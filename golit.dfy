// The whole program as one pipeline: split the source text into lines,
// group the lines into segments, render every segment and assemble the
// page. Reading the file, finding the two renderer programs and printing
// the page are outside the model: the source text and the title come in as
// arguments, the renderers as functions, and the page goes out as a string.

module Golit {
  import Text
  import Classify
  import opened Segment
  import Render
  import Page

  /** The page golit prints for `source` under `title`, with the page's
      fixed text taken from `l`. */
  function Html(l: Page.Layout, source: string, title: string,
                renderDocs: string -> string, renderCode: string -> string): string {
    var segs := Run(Text.Lines(source)).Segs();
    Page.Document(l, title, Render.RenderAll(segs, renderDocs, renderCode))
  }

  /** golit's main flow after its argument and environment checks. */
  method Generate(source: string, title: string, renderDocs: string -> string, renderCode: string -> string)
    returns (html: string)
    ensures html == Html(Page.GolitLayout(), source, title, renderDocs, renderCode)
  {
    html := GenerateWith(Page.GolitLayout(), source, title, renderDocs, renderCode);
  }

  /** The same flow with the page's fixed text taken from `l`. */
  method GenerateWith(l: Page.Layout, source: string, title: string,
                      renderDocs: string -> string, renderCode: string -> string)
    returns (html: string)
    ensures html == Html(l, source, title, renderDocs, renderCode)
  {
    var lines := Text.Lines(source);
    var segs := SegmentLines(lines);
    segs := Render.Render(segs, renderDocs, renderCode);
    html := Page.Assemble(l, title, segs);
  }

  /** For any segment list (in particular the one `Html` renders), the
      page has one row per segment, in order, and the row of segment i
      holds the renderers' output on that segment's docs and padded code. */
  lemma RowOfSegment(l: Page.Layout, title: string, segs: seq<Seg>,
                     renderDocs: string -> string, renderCode: string -> string, i: nat)
    requires i < |segs|
    ensures var rendered := Render.RenderAll(segs, renderDocs, renderCode);
            Page.Document(l, title, rendered) ==
              Page.Header(l, title) +
              (Page.Rows(l, rendered[..i]) + Page.Row(l, rendered[i]) + Page.Rows(l, rendered[i + 1..])) +
              l.footer &&
            rendered[i].docsRendered == renderDocs(segs[i].docs) &&
            rendered[i].codeRendered == renderCode(segs[i].code + Render.CodePadding)
  {
    Page.RowAt(l, Render.RenderAll(segs, renderDocs, renderCode), i);
  }

  /** An empty file gives a page with exactly one row: the initial segment,
      holding a single "\n" of code. */
  lemma EmptySource(l: Page.Layout, title: string, renderDocs: string -> string, renderCode: string -> string)
    ensures Html(l, "", title, renderDocs, renderCode) ==
            Page.Header(l, title) +
            Page.Row(l, Seg("", "\n", renderDocs(""), renderCode("\n" + Render.CodePadding))) +
            l.footer
  {
    var seg := Seg("", "\n", renderDocs(""), renderCode("\n" + Render.CodePadding));
    assert Text.Lines("") == [""];
    assert Run([""]).Segs() == [NewSeg("", "\n")] by {
      Classify.BlankIsNotDocs("");
      FirstLine("");
      assert "\n" + "" == "\n";
    }
    assert Render.RenderAll([NewSeg("", "\n")], renderDocs, renderCode) == [seg];
    assert Page.Rows(l, [seg]) == Page.Row(l, seg) by {
      assert [seg][..0] == [];
    }
  }
}
