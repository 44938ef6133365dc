// The HTML page: a fixed header with the page title, one table row per
// segment holding its rendered docs and rendered code, and a fixed footer.
// golit prints these pieces to standard output one after the other; here
// the page is the string those prints add up to.
//
// The fixed text is kept in a `Layout` value so that the page functions
// and lemmas hold for any text; `GolitLayout` is golit's own text,
// character for character (including its `http-eqiv` attribute name).

module Page {
  import opened Segment

  /** The fixed text around the title, around each row's two fragments, and
      after the last row. */
  datatype Layout = Layout(headOpen: string, headClose: string,
                           rowOpen: string, rowMid: string, rowClose: string,
                           footer: string)

  /** golit's own page text, character for character. */
  function GolitLayout(): Layout {
    Layout(
      "\n<!DOCTYPE html>\n<html>\n  <head>\n    <meta http-eqiv=\"content-type\" content=\"text/html;charset=utf-8\">\n    <title>",
      "</title>\n    <link rel=stylesheet href=\"http://jashkenas.github.com/docco/resources/docco.css\">\n  </head>\n  <body>\n    <div id=\"container\">\n      <div id=\"background\"></div>\n      <table cellspacing=\"0\" cellpadding=\"0\">\n        <thead>\n          <tr>\n            <td class=docs></td>\n            <td class=code></td>\n          </tr>\n        </thead>\n        <tbody>",
      "<tr>\n             <td class=docs>",
      "</td>\n             <td class=code>",
      "</td>\n           </tr>",
      "</tbody>\n           </table>\n         </div>\n       </body>\n     </html>")
  }

  /** The header with the title inserted verbatim (`%s`, no escaping). */
  function Header(l: Layout, title: string): string {
    l.headOpen + title + l.headClose
  }

  /** The table row of one segment: its rendered docs, then its rendered
      code, each inserted verbatim. */
  function Row(l: Layout, s: Seg): string {
    l.rowOpen + s.docsRendered + l.rowMid + s.codeRendered + l.rowClose
  }

  /** The rows of the segments, in list order. */
  function Rows(l: Layout, segs: seq<Seg>): string {
    if segs == [] then "" else Rows(l, segs[..|segs| - 1]) + Row(l, segs[|segs| - 1])
  }

  /** The whole page. */
  function Document(l: Layout, title: string, segs: seq<Seg>): string {
    Header(l, title) + Rows(l, segs) + l.footer
  }

  /** The rows of a concatenation are the rows of each part. */
  lemma {:induction false} RowsAppend(l: Layout, a: seq<Seg>, b: seq<Seg>)
    ensures Rows(l, a + b) == Rows(l, a) + Rows(l, b)
    decreases |b|
  {
    if b == [] {
      assert a + b == a;
    } else {
      var m := |b| - 1;
      assert (a + b)[..|a| + m] == a + b[..m];
      RowsAppend(l, a, b[..m]);
    }
  }

  /** Segment i's row sits between the rows of the segments before it and
      the rows of the segments after it: one row per segment, in order. */
  lemma RowAt(l: Layout, segs: seq<Seg>, i: nat)
    requires i < |segs|
    ensures Rows(l, segs) == Rows(l, segs[..i]) + Row(l, segs[i]) + Rows(l, segs[i + 1..])
  {
    assert segs == segs[..i] + [segs[i]] + segs[i + 1..];
    RowsAppend(l, segs[..i] + [segs[i]], segs[i + 1..]);
    assert (segs[..i] + [segs[i]])[..i] == segs[..i];
  }

  /** The page starts with the fixed text before the title, carries the
      title verbatim right after it, and ends with the footer. */
  lemma PageLayout(l: Layout, title: string, segs: seq<Seg>)
    ensures var d := Document(l, title, segs);
            |d| >= |l.headOpen| + |title| + |l.headClose| + |l.footer| &&
            d[..|l.headOpen|] == l.headOpen &&
            d[|l.headOpen|..|l.headOpen| + |title|] == title &&
            d[|d| - |l.footer|..] == l.footer
  {
    var rest := l.headClose + Rows(l, segs) + l.footer;
    assert Document(l, title, segs) == l.headOpen + (title + rest);
    assert Document(l, title, segs) == (Header(l, title) + Rows(l, segs)) + l.footer;
  }

  /** Pages for the same segments with different titles differ: the title
      can be read back from the page. */
  lemma TitleDetermined(l: Layout, t1: string, t2: string, segs: seq<Seg>)
    requires Document(l, t1, segs) == Document(l, t2, segs)
    ensures t1 == t2
  {
    assert |t1| == |t2|;
    PageLayout(l, t1, segs);
    PageLayout(l, t2, segs);
  }

  /** Printing the page: the header, then one row per segment, then the
      footer, each appended to what was printed before. */
  method Assemble(l: Layout, title: string, segs: seq<Seg>) returns (html: string)
    ensures html == Document(l, title, segs)
  {
    html := l.headOpen + title + l.headClose;
    for i := 0 to |segs|
      invariant html == Header(l, title) + Rows(l, segs[..i])
    {
      var seg := segs[i];
      assert segs[..i + 1][..i] == segs[..i];
      html := html + (l.rowOpen + seg.docsRendered + l.rowMid + seg.codeRendered + l.rowClose);
    }
    assert segs[..|segs|] == segs;
    html := html + l.footer;
  }
}
