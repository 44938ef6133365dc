// The segmenter: a single forward pass over the lines of a source file that
// groups consecutive documentation lines and consecutive code lines into
// `{docs, code}` segments.
//
// `Step`, `Feed` and `Run` are the pass as a fold; `SegmentLines` is the pass as
// golit runs it, a loop that appends segments to a list and edits the last
// one in place, proved to build exactly the list `Run` describes. The lemmas
// after `Run` state what the pass does, including its order-dependent quirks.

module Segment {
  import opened Classify
  import Text

  /** The kind of the previous line. golit keeps this as a string that is
      "", "docs" or "code"; it compares it against "header" but never
      stores that value, so `Header` is never reached (see `Run`). */
  datatype Seen = Unset | Docs | Code | Header

  /** One segment: its raw docs and code, and the two rendered fragments,
      which stay empty until the segments are rendered. */
  datatype Seg = Seg(docs: string, code: string, docsRendered: string, codeRendered: string)

  /** A fresh segment as the segmenter creates it, rendered fields empty. */
  function NewSeg(docs: string, code: string): Seg {
    Seg(docs, code, "", "")
  }

  /** The state of the pass: the kind of the previous line, the segments
      already closed, and the open segment, which is the last one of the
      list (golit's `segs[len(segs)-1]`) and the only one still edited. */
  datatype Acc = Acc(lastSeen: Seen, closed: seq<Seg>, open: Seg) {
    /** The whole segment list. */
    function Segs(): seq<Seg> {
      closed + [open]
    }
  }

  /** Before the first line: one empty segment and no previous kind. */
  function Init(): Acc {
    Acc(Unset, [], NewSeg("", ""))
  }

  /** The line takes the header branch. */
  predicate HeaderPath(lastSeen: Seen, line: string) {
    HeaderMatch(line) || (line == "" && lastSeen == Header)
  }

  /** The line takes the documentation branch. */
  predicate DocsPath(lastSeen: Seen, line: string) {
    !HeaderPath(lastSeen, line) && (DocsMatch(line) || (line == "" && lastSeen == Docs))
  }

  /** One iteration of the loop body. Every branch either appends a new open
      segment, closing the old one unchanged, or edits the open segment, and
      none of them stores `Header`. */
  function Step(acc: Acc, line: string): (r: Acc)
    ensures r.closed == acc.closed || r.closed == acc.closed + [acc.open]
    ensures acc.lastSeen != Header ==> r.lastSeen != Header
  {
    var last := acc.open;
    if HeaderPath(acc.lastSeen, line) then
      var trimmed := Strip(line);
      var newHeader := acc.lastSeen != Header;
      if newHeader then Acc(acc.lastSeen, acc.closed + [last], NewSeg(trimmed, ""))
      else Acc(acc.lastSeen, acc.closed, last.(docs := last.docs + "\n" + trimmed))
    else if DocsPath(acc.lastSeen, line) then
      var trimmed := Strip(line);
      var newDocs := acc.lastSeen != Docs && last.docs != "";
      if newDocs then Acc(Docs, acc.closed + [last], NewSeg(trimmed, ""))
      else Acc(Docs, acc.closed, last.(docs := last.docs + "\n" + trimmed))
    else
      var newCode := acc.lastSeen != Code && last.code != "";
      if newCode then Acc(Code, acc.closed + [last], NewSeg("", line))
      else Acc(Code, acc.closed, last.(code := last.code + "\n" + line))
  }

  /** The pass continued from state `acc` over `block`. `Header` is never
      reached from a state that is not `Header`. */
  function Feed(acc: Acc, block: seq<string>): (r: Acc)
    ensures acc.lastSeen != Header ==> r.lastSeen != Header
  {
    if block == [] then acc
    else
      var prev := Feed(acc, block[..|block| - 1]);
      Step(prev, block[|block| - 1])
  }

  /** The whole pass over `lines`. The previous kind is never `Header`. */
  function Run(lines: seq<string>): (acc: Acc)
    ensures acc.lastSeen != Header
  {
    Feed(Init(), lines)
  }

  lemma FeedSnoc(acc: Acc, block: seq<string>, line: string)
    ensures Feed(acc, block + [line]) == Step(Feed(acc, block), line)
  {
    assert (block + [line])[..|block|] == block;
  }

  lemma RunSnoc(lines: seq<string>, line: string)
    ensures Run(lines + [line]) == Step(Run(lines), line)
  {
    FeedSnoc(Init(), lines, line);
  }

  /** Feeding two blocks one after the other is feeding their concatenation. */
  lemma {:induction false} FeedAppend(acc: Acc, a: seq<string>, b: seq<string>)
    ensures Feed(acc, a + b) == Feed(Feed(acc, a), b)
    decreases |b|
  {
    if b == [] {
      assert a + b == a;
    } else {
      var m := |b| - 1;
      assert a + b == (a + b[..m]) + [b[m]];
      assert b == b[..m] + [b[m]];
      FeedSnoc(acc, a + b[..m], b[m]);
      FeedSnoc(Feed(acc, a), b[..m], b[m]);
      FeedAppend(acc, a, b[..m]);
    }
  }

  /** At most one segment is closed per line. */
  lemma {:induction false} FeedCount(acc: Acc, block: seq<string>)
    ensures |Feed(acc, block).closed| <= |acc.closed| + |block|
  {
    if block != [] {
      FeedCount(acc, block[..|block| - 1]);
    }
  }

  /** A file of n lines gives at most n + 1 segments. */
  lemma SegmentCount(lines: seq<string>)
    ensures 1 <= |Run(lines).Segs()| <= |lines| + 1
  {
    FeedCount(Init(), lines);
  }

  /** A closed segment stays closed and unchanged for the rest of the pass. */
  lemma {:induction false} FeedKeepsClosed(acc: Acc, block: seq<string>)
    ensures acc.closed <= Feed(acc, block).closed
  {
    if block != [] {
      FeedKeepsClosed(acc, block[..|block| - 1]);
    }
  }

  /** A closed segment is never edited again: the segments closed after any
      prefix of the input begin the segments closed after the whole input. */
  lemma ClosedSegmentsStay(lines: seq<string>, k: nat)
    requires k <= |lines|
    ensures Run(lines[..k]).closed <= Run(lines).closed
  {
    assert lines == lines[..k] + lines[k..];
    FeedAppend(Init(), lines[..k], lines[k..]);
    FeedKeepsClosed(Run(lines[..k]), lines[k..]);
  }

  /** From any state the pass can be in, a header line opens a segment of its
      own holding the line minus its leading "//" and one whitespace
      character, with empty code, and leaves the previous kind alone. */
  lemma StepHeader(acc: Acc, line: string)
    requires acc.lastSeen != Header
    requires HeaderMatch(line)
    ensures Step(acc, line) == Acc(acc.lastSeen, acc.closed + [acc.open], NewSeg(line[3..], ""))
  {
    HeaderIsDocs(line);
  }

  /** A documentation line (or an empty line right after documentation)
      opens a segment only when the previous line was not documentation and
      the open segment already holds documentation; otherwise its stripped
      text is added to the open segment's docs after a "\n". */
  lemma StepDocs(acc: Acc, line: string)
    requires acc.lastSeen != Header
    requires !HeaderMatch(line)
    requires DocsMatch(line) || (line == "" && acc.lastSeen == Docs)
    ensures Step(acc, line) ==
              if acc.lastSeen != Docs && acc.open.docs != "" then
                Acc(Docs, acc.closed + [acc.open], NewSeg(Strip(line), ""))
              else
                Acc(Docs, acc.closed, acc.open.(docs := acc.open.docs + "\n" + Strip(line)))
  {
  }

  /** Every other line is code: it opens a segment only when the previous
      line was not code and the open segment already holds code; otherwise
      it is added verbatim to the open segment's code after a "\n". */
  lemma StepCode(acc: Acc, line: string)
    requires acc.lastSeen != Header
    requires !DocsMatch(line)
    requires !(line == "" && acc.lastSeen == Docs)
    ensures Step(acc, line) ==
              if acc.lastSeen != Code && acc.open.code != "" then
                Acc(Code, acc.closed + [acc.open], NewSeg("", line))
              else
                Acc(Code, acc.closed, acc.open.(code := acc.open.code + "\n" + line))
  {
    if HeaderMatch(line) {
      HeaderIsDocs(line);
    }
  }

  /** Every header line opens a new segment: the branch that would continue
      a header segment is never taken, because `lastSeen` is never `Header`. */
  lemma HeaderOpens(lines: seq<string>, line: string)
    requires HeaderMatch(line)
    ensures var acc := Run(lines);
            Run(lines + [line]) == Acc(acc.lastSeen, acc.closed + [acc.open], NewSeg(line[3..], ""))
  {
    RunSnoc(lines, line);
    StepHeader(Run(lines), line);
  }

  /** Whether a line opens a new segment, given what came before it. */
  lemma OpensIff(lines: seq<string>, line: string)
    ensures var acc := Run(lines);
            |Run(lines + [line]).closed| == |acc.closed| + 1 <==>
              HeaderMatch(line) ||
              (DocsMatch(line) && acc.lastSeen != Docs && acc.open.docs != "") ||
              (!DocsMatch(line) && !(line == "" && acc.lastSeen == Docs) &&
               acc.lastSeen != Code && acc.open.code != "")
  {
    RunSnoc(lines, line);
    var acc := Run(lines);
    if HeaderMatch(line) {
      StepHeader(acc, line);
    } else if DocsMatch(line) || (line == "" && acc.lastSeen == Docs) {
      StepDocs(acc, line);
    } else {
      StepCode(acc, line);
    }
  }

  /** Only the exactly-empty line continues documentation; an empty line
      anywhere else, and every whitespace-only line, is code kept verbatim. */
  lemma BlankLine(lines: seq<string>, line: string)
    requires AllSpace(line)
    ensures var acc := Run(lines);
            var last := acc.open;
            var r := Run(lines + [line]);
            if line == "" && acc.lastSeen == Docs then
              r == Acc(Docs, acc.closed, last.(docs := last.docs + "\n"))
            else
              r == Acc(Code, acc.closed + [last], NewSeg("", line)) ||
              r == Acc(Code, acc.closed, last.(code := last.code + "\n" + line))
  {
    BlankIsNotDocs(line);
    RunSnoc(lines, line);
    var acc := Run(lines);
    if line == "" && acc.lastSeen == Docs {
      StepDocs(acc, line);
    } else {
      StepCode(acc, line);
    }
  }

  /** The first line of a file never opens a segment unless it is a header:
      it lands in the initial segment, after a "\n". */
  lemma FirstLine(line: string)
    requires !HeaderMatch(line)
    ensures Run([line]) ==
            if DocsMatch(line) then Acc(Docs, [], NewSeg("\n" + Strip(line), ""))
            else Acc(Code, [], NewSeg("", "\n" + line))
  {
    assert [] + [line] == [line];
    RunSnoc([], line);
    if DocsMatch(line) {
      StepDocs(Init(), line);
    } else {
      StepCode(Init(), line);
    }
  }

  /** The stripped texts of a block of documentation lines. */
  function StripAll(block: seq<string>): (r: seq<string>)
    ensures |r| == |block| && forall i :: 0 <= i < |block| ==> r[i] == Strip(block[i])
  {
    if block == [] then [] else StripAll(block[..|block| - 1]) + [Strip(block[|block| - 1])]
  }

  lemma {:induction false} JoinSnoc(block: seq<string>, line: string)
    requires |block| >= 1
    ensures Text.Join(block + [line]) == Text.Join(block) + "\n" + line
  {
    if |block| > 1 {
      assert (block + [line])[1..] == block[1..] + [line];
      JoinSnoc(block[1..], line);
    } else {
      assert (block + [line])[1..] == [line];
    }
  }

  /** The code that a block of lines adds to the open segment. */
  function CodeAfter(acc: Acc, block: seq<string>): Acc
    requires |block| >= 1
  {
    Acc(Code, acc.closed, acc.open.(code := acc.open.code + "\n" + Text.Join(block)))
  }

  lemma CodeBlockSnoc(acc: Acc, block: seq<string>, line: string)
    requires acc.lastSeen == Code && |block| >= 1
    requires !DocsMatch(line)
    requires Feed(acc, block) == CodeAfter(acc, block)
    ensures Feed(acc, block + [line]) == CodeAfter(acc, block + [line])
  {
    var a := CodeAfter(acc, block);
    assert Feed(acc, block + [line]) == Step(a, line) by {
      FeedSnoc(acc, block, line);
    }
    assert Step(a, line) == Acc(Code, acc.closed, acc.open.(code := a.open.code + "\n" + line)) by {
      StepCode(a, line);
    }
    JoinSnoc(block, line);
    AppendLine(acc.open.code + "\n", Text.Join(block), line);
  }

  /** While the previous line was code, a block of non-documentation lines
      (empty and whitespace-only ones included) all go, in order and
      verbatim, onto the open segment's code, each after a "\n". */
  lemma {:induction false} CodeBlock(acc: Acc, block: seq<string>)
    requires acc.lastSeen == Code
    requires |block| >= 1
    requires forall i :: 0 <= i < |block| ==> !DocsMatch(block[i])
    ensures Feed(acc, block) == CodeAfter(acc, block)
  {
    var m := |block| - 1;
    var line := block[m];
    assert block == block[..m] + [line];
    if m == 0 {
      FeedSnoc(acc, [], line);
      assert [] + [line] == [line];
      StepCode(acc, line);
    } else {
      CodeBlock(acc, block[..m]);
      CodeBlockSnoc(acc, block[..m], line);
    }
  }

  /** Splitting the open segment's code after such a block at "\n" gives
      back the code's earlier lines followed by the block, verbatim. */
  lemma CodeBlockLines(lines: seq<string>, block: seq<string>)
    requires Run(lines).lastSeen == Code
    requires |block| >= 1 && Text.AllNoNewline(block)
    requires forall i :: 0 <= i < |block| ==> !DocsMatch(block[i])
    ensures var acc := Run(lines);
            var r := Run(lines + block);
            r.closed == acc.closed &&
            Text.Lines(r.open.code) == Text.Lines(acc.open.code) + block
  {
    FeedAppend(Init(), lines, block);
    CodeBlock(Run(lines), block);
    Text.LinesAppend(Run(lines).open.code, Text.Join(block));
    Text.LinesJoin(block);
  }

  /** A line that continues documentation after documentation. */
  predicate ContinuesDocs(line: string) {
    !HeaderMatch(line) && (DocsMatch(line) || line == "")
  }

  /** The docs that a block of such lines adds to the open segment. */
  function DocsAfter(acc: Acc, block: seq<string>): Acc
    requires |block| >= 1
  {
    Acc(Docs, acc.closed, acc.open.(docs := acc.open.docs + "\n" + Text.Join(StripAll(block))))
  }

  lemma DocsBlockSnoc(acc: Acc, block: seq<string>, line: string)
    requires acc.lastSeen == Docs && |block| >= 1
    requires ContinuesDocs(line)
    requires Feed(acc, block) == DocsAfter(acc, block)
    ensures Feed(acc, block + [line]) == DocsAfter(acc, block + [line])
  {
    var a := DocsAfter(acc, block);
    assert Feed(acc, block + [line]) == Step(a, line) by {
      FeedSnoc(acc, block, line);
    }
    assert Step(a, line) == Acc(Docs, acc.closed, acc.open.(docs := a.open.docs + "\n" + Strip(line))) by {
      StepDocs(a, line);
    }
    DocsTextSnoc(acc.open.docs, block, line);
  }

  /** The docs text after one more line: the earlier text, "\n" and the
      stripped line. */
  lemma DocsTextSnoc(d: string, block: seq<string>, line: string)
    requires |block| >= 1
    ensures d + "\n" + Text.Join(StripAll(block)) + "\n" + Strip(line) ==
            d + "\n" + Text.Join(StripAll(block + [line]))
  {
    var j, t := Text.Join(StripAll(block)), Strip(line);
    StripAllSnoc(block, line);
    JoinSnoc(StripAll(block), t);
    AppendLine(d + "\n", j, t);
  }

  /** Regrouping a text, "\n" and one more line after a prefix. */
  lemma AppendLine(x: string, j: string, t: string)
    ensures x + j + "\n" + t == x + (j + "\n" + t)
  {
  }

  /** Stripping a block with one more line strips that line at the end. */
  lemma StripAllSnoc(block: seq<string>, line: string)
    ensures StripAll(block + [line]) == StripAll(block) + [Strip(line)]
  {
    assert (block + [line])[..|block|] == block;
  }

  /** While the previous line was documentation, a block of documentation
      lines and empty lines all go, in order, onto the open segment's docs
      with their comment prefixes stripped, each after a "\n". */
  lemma {:induction false} DocsBlock(acc: Acc, block: seq<string>)
    requires acc.lastSeen == Docs
    requires |block| >= 1
    requires forall i :: 0 <= i < |block| ==> ContinuesDocs(block[i])
    ensures Feed(acc, block) == DocsAfter(acc, block)
  {
    var m := |block| - 1;
    var line := block[m];
    assert block == block[..m] + [line];
    if m == 0 {
      FeedSnoc(acc, [], line);
      assert [] + [line] == [line];
      assert StripAll(block) == [Strip(line)];
      StepDocs(acc, line);
    } else {
      DocsBlock(acc, block[..m]);
      DocsBlockSnoc(acc, block[..m], line);
    }
  }

  /** A source file holding a doc line and a code line, each ended by a
      newline, splits into those two lines and the empty line after the
      final newline. */
  lemma DocThenCodeLines(doc: string, code: string)
    requires Text.NoNewline(doc) && Text.NoNewline(code)
    ensures Text.Lines(doc + "\n" + code + "\n") == [doc, code, ""]
  {
    assert doc + "\n" + code + "\n" == doc + "\n" + (code + "\n" + "");
    Text.LinesAppend(doc, code + "\n" + "");
    Text.LinesAppend(code, "");
    Text.LinesJoin([doc]);
    Text.LinesJoin([code]);
  }

  /** A doc line "// t" followed by a code line and the final empty line:
      both lines land in the initial segment, so the file gives a single
      segment. */
  lemma DocThenCode(t: string, code: string)
    requires !HeaderMatch("// " + t)
    requires code != "" && !DocsMatch(code)
    ensures Run(["// " + t, code, ""]).Segs() == [NewSeg("\n" + t, "\n" + code + "\n")]
  {
    var l0, l1, l2 := "// " + t, code, "";
    var a1 := Acc(Docs, [], NewSeg("\n" + t, ""));
    var a2 := Acc(Code, [], NewSeg("\n" + t, "\n" + code));
    var a3 := Acc(Code, [], NewSeg("\n" + t, "\n" + code + "\n"));
    assert Run([l0]) == a1 by {
      RunSnoc([], l0);
      assert [] + [l0] == [l0];
      DocsCompose("", ' ', t);
      assert "" + "//" + [' '] + t == l0;
      StepDocs(Init(), l0);
    }
    assert Run([l0, l1]) == a2 by {
      RunSnoc([l0], l1);
      assert [l0] + [l1] == [l0, l1];
      StepCode(a1, l1);
    }
    assert Run([l0, l1, l2]) == a3 by {
      RunSnoc([l0, l1], l2);
      assert [l0, l1] + [l2] == [l0, l1, l2];
      BlankIsNotDocs(l2);
      StepCode(a2, l2);
    }
  }

  /** "// " followed by k >= 1 hashes, a space and any text is a header
      line whose stripped text is everything after "// ". */
  lemma HeaderLine(k: nat, h: string)
    requires k >= 1
    ensures var head := Hashes(k) + " " + h;
            HeaderMatch("// " + head) && ("// " + head)[3..] == head
  {
    HeaderCompose(' ', k, ' ', h);
    assert "//" + [' '] + Hashes(k) + [' '] + h == "// " + (Hashes(k) + " " + h);
  }

  /** A header line, an empty line, a code line and the final empty line:
      the header opens its own segment; the empty line is not documentation
      (the previous kind is still unset), so it and the code line go into
      the header segment's code. */
  lemma HeaderThenCode(k: nat, h: string, code: string)
    requires k >= 1
    requires !DocsMatch(code)
    ensures var head := Hashes(k) + " " + h;
            Run(["// " + head, "", code, ""]).Segs() ==
            [NewSeg("", ""), NewSeg(head, "\n\n" + code + "\n")]
  {
    var head := Hashes(k) + " " + h;
    assert "\n" + "\n" + code == "\n\n" + code;
    assert "\n\n" + code + "\n" + "" == "\n\n" + code + "\n";
    var l0, l1, l2, l3 := "// " + head, "", code, "";
    var a1 := Acc(Unset, [NewSeg("", "")], NewSeg(head, ""));
    var a2 := Acc(Code, [NewSeg("", "")], NewSeg(head, "\n"));
    var a3 := Acc(Code, [NewSeg("", "")], NewSeg(head, "\n\n" + code));
    var a4 := Acc(Code, [NewSeg("", "")], NewSeg(head, "\n\n" + code + "\n"));
    assert Run([l0]) == a1 by {
      HeaderLine(k, h);
      HeaderOpens([], l0);
      assert [] + [l0] == [l0];
    }
    assert Run([l0, l1]) == a2 by {
      RunSnoc([l0], l1);
      assert [l0] + [l1] == [l0, l1];
      BlankIsNotDocs(l1);
      StepCode(a1, l1);
    }
    assert Run([l0, l1, l2]) == a3 by {
      RunSnoc([l0, l1], l2);
      assert [l0, l1] + [l2] == [l0, l1, l2];
      StepCode(a2, l2);
    }
    assert Run([l0, l1, l2, l3]) == a4 by {
      RunSnoc([l0, l1, l2], l3);
      assert [l0, l1, l2] + [l3] == [l0, l1, l2, l3];
      BlankIsNotDocs(l3);
      StepCode(a3, l3);
    }
  }

  /** A header line keeps the previous kind, so the line after it is handled
      as if it followed the line before the header, but against the header's
      segment, whose docs are non-empty and whose code is empty:
      - after earlier documentation, a doc line or an empty line goes onto
        the header segment's docs;
      - otherwise a doc line opens a segment of its own;
      - every code-path line goes onto the header segment's code, whatever
        came before the header. */
  lemma LineAfterHeader(lines: seq<string>, h: string, line: string)
    requires HeaderMatch(h) && !HeaderMatch(line)
    ensures var prev := Run(lines);
            var r := Run(lines + [h, line]);
            if DocsMatch(line) || (line == "" && prev.lastSeen == Docs) then
              if prev.lastSeen == Docs then
                r == Acc(Docs, prev.Segs(), NewSeg(h[3..] + "\n" + Strip(line), ""))
              else
                r == Acc(Docs, prev.Segs() + [NewSeg(h[3..], "")], NewSeg(Strip(line), ""))
            else
              r == Acc(Code, prev.Segs(), NewSeg(h[3..], "\n" + line))
  {
    var prev := Run(lines);
    var a := Acc(prev.lastSeen, prev.Segs(), NewSeg(h[3..], ""));
    assert Run(lines + [h]) == a by {
      HeaderOpens(lines, h);
    }
    assert h[3..] != "" by {
      HeaderIsDocs(h);
    }
    assert Run(lines + [h, line]) == Step(a, line) by {
      assert lines + [h, line] == (lines + [h]) + [line];
      RunSnoc(lines + [h], line);
    }
    if DocsMatch(line) || (line == "" && prev.lastSeen == Docs) {
      StepDocs(a, line);
    } else {
      StepCode(a, line);
    }
  }

  /** The pass state that golit's `lastSeen` and `segs` stand for: the last
      segment of the list is the open one. */
  function View(lastSeen: Seen, segs: seq<Seg>): Acc
    requires |segs| >= 1
  {
    Acc(lastSeen, segs[..|segs| - 1], segs[|segs| - 1])
  }

  /** One iteration of the segmentation loop: classify `line`, then either
      append a new segment or edit the last one in place (the segment golit
      reaches through `lastSeg`), and update `lastSeen`. */
  method Absorb(segs: seq<Seg>, lastSeen: Seen, line: string) returns (segs': seq<Seg>, lastSeen': Seen)
    requires |segs| >= 1 && lastSeen != Header
    ensures |segs'| >= 1
    ensures View(lastSeen', segs') == Step(View(lastSeen, segs), line)
  {
    ghost var acc := View(lastSeen, segs);
    segs', lastSeen' := segs, lastSeen;
    var headerMatch := HeaderMatch(line);
    var docsMatch := DocsMatch(line);
    var emptyMatch := line == "";
    var n := |segs|;
    var lastSeg := segs[n - 1];
    var lastHeader := lastSeen == Header;
    var lastDocs := lastSeen == Docs;
    var newHeader := lastSeen != Header;
    var newDocs := lastSeen != Docs && lastSeg.docs != "";
    var newCode := lastSeen != Code && lastSeg.code != "";
    if headerMatch || (emptyMatch && lastHeader) {
      StepHeader(acc, line);
      var trimmed := Strip(line);
      if newHeader {
        segs' := segs + [NewSeg(trimmed, "")];
        assert segs'[..n] == segs;
      } else {
        // golit would extend the open segment's docs here, but `lastSeen`
        // never holds `Header`, so this branch is never taken.
        assert false;
      }
    } else if docsMatch || (emptyMatch && lastDocs) {
      StepDocs(acc, line);
      var trimmed := Strip(line);
      if newDocs {
        segs' := segs + [NewSeg(trimmed, "")];
        assert segs'[..n] == segs;
      } else {
        segs' := segs[n - 1 := lastSeg.(docs := lastSeg.docs + "\n" + trimmed)];
        assert segs'[..n - 1] == segs[..n - 1];
      }
      lastSeen' := Docs;
    } else {
      StepCode(acc, line);
      if newCode {
        segs' := segs + [NewSeg("", line)];
        assert segs'[..n] == segs;
      } else {
        segs' := segs[n - 1 := lastSeg.(code := lastSeg.code + "\n" + line)];
        assert segs'[..n - 1] == segs[..n - 1];
      }
      lastSeen' := Code;
    }
  }

  /** The segmentation loop. The list starts with one empty segment and each
      line goes through `Absorb`; the result is exactly the segment list
      `Run` describes. */
  method SegmentLines(lines: seq<string>) returns (segs: seq<Seg>)
    ensures segs == Run(lines).Segs()
  {
    segs := [NewSeg("", "")];
    var lastSeen := Unset;
    for i := 0 to |lines|
      invariant |segs| >= 1 && View(lastSeen, segs) == Run(lines[..i])
    {
      segs, lastSeen := Absorb(segs, lastSeen, lines[i]);
      assert View(lastSeen, segs) == Run(lines[..i + 1]) by {
        assert lines[..i + 1] == lines[..i] + [lines[i]];
        RunSnoc(lines[..i], lines[i]);
      }
    }
    assert lines[..|lines|] == lines;
    assert segs == View(lastSeen, segs).Segs();
  }
}
