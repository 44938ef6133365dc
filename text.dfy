// Splitting a file's text into lines and joining lines back together, as
// `strings.Split(text, "\n")` does and as the segmenter does when it glues
// lines with "\n".

module Text {

  predicate NoNewline(s: string) {
    '\n' !in s
  }

  predicate AllNoNewline(lines: seq<string>) {
    forall i :: 0 <= i < |lines| ==> NoNewline(lines[i])
  }

  /** `strings.Split(s, "\n")`: the pieces between the newlines, so a text
      with n newlines gives n + 1 pieces and the empty text gives [""]. */
  function Lines(s: string): (r: seq<string>)
    ensures |r| >= 1
    decreases |s|
  {
    if s == [] then [""]
    else
      var rest := Lines(s[1..]);
      assert s == [s[0]] + s[1..];
      if s[0] == '\n' then [""] + rest
      else [[s[0]] + rest[0]] + rest[1..]
  }

  /** No piece of a split contains a newline. */
  lemma {:induction false} LinesHaveNoNewline(s: string)
    ensures AllNoNewline(Lines(s))
    decreases |s|
  {
    if s != [] {
      LinesHaveNoNewline(s[1..]);
      var rest := Lines(s[1..]);
      if s[0] != '\n' {
        assert NoNewline([s[0]] + rest[0]) by {
          assert NoNewline(rest[0]);
        }
        assert AllNoNewline([[s[0]] + rest[0]] + rest[1..]) by {
          assert forall i :: 1 <= i < |rest| ==> NoNewline(rest[i]);
        }
      }
    }
  }

  /** The lines glued back together with "\n" between them. */
  function Join(lines: seq<string>): string
    requires |lines| >= 1
  {
    if |lines| == 1 then lines[0] else lines[0] + "\n" + Join(lines[1..])
  }

  /** Joining the pieces of a split gives back the text. */
  lemma {:induction false} JoinLines(s: string)
    ensures Join(Lines(s)) == s
    decreases |s|
  {
    if s != [] {
      var rest := Lines(s[1..]);
      JoinLines(s[1..]);
      if s[0] == '\n' {
        assert Lines(s)[1..] == rest;
      } else {
        var r := Lines(s);
        if |rest| == 1 {
          assert r == [[s[0]] + rest[0]];
        } else {
          assert r[1..] == rest[1..];
          assert Join(r) == [s[0]] + rest[0] + "\n" + Join(rest[1..]);
        }
      }
    }
  }

  /** Splitting text that starts with a newline-free piece `a` glues `a`
      onto the first of the remaining lines. */
  lemma {:induction false} LinesPrefix(a: string, t: string)
    requires NoNewline(a)
    ensures var r := Lines(t);
            Lines(a + t) == [a + r[0]] + r[1..]
    decreases |a|
  {
    if a == [] {
      assert a + t == t;
      assert a + Lines(t)[0] == Lines(t)[0];
    } else {
      assert (a + t)[1..] == a[1..] + t;
      LinesPrefix(a[1..], t);
      assert a[0] != '\n' by { assert a[0] in a; }
      assert [a[0]] + (a[1..] + Lines(t)[0]) == a + Lines(t)[0];
    }
  }

  /** A leading newline ends an empty first line. */
  lemma LinesNewline(t: string)
    ensures Lines("\n" + t) == [""] + Lines(t)
  {
    assert ("\n" + t)[1..] == t;
  }

  /** Any other leading character goes onto the front of the first line. */
  lemma LinesChar(c: char, t: string)
    requires c != '\n'
    ensures var r := Lines(t);
            Lines([c] + t) == [[c] + r[0]] + r[1..]
  {
    assert ([c] + t)[1..] == t;
  }

  /** The inductive step of `LinesAppend` for a leading newline. */
  lemma LinesAppendNewline(a: string, b: string)
    requires Lines(a + "\n" + b) == Lines(a) + Lines(b)
    ensures Lines("\n" + a + "\n" + b) == Lines("\n" + a) + Lines(b)
  {
    var t := a + "\n" + b;
    assert "\n" + a + "\n" + b == "\n" + t;
    LinesNewline(t);
    LinesNewline(a);
    assert [""] + (Lines(a) + Lines(b)) == [""] + Lines(a) + Lines(b);
  }

  /** The inductive step of `LinesAppend` for any other leading character. */
  lemma LinesAppendChar(c: char, a: string, b: string)
    requires c != '\n'
    requires Lines(a + "\n" + b) == Lines(a) + Lines(b)
    ensures Lines([c] + a + "\n" + b) == Lines([c] + a) + Lines(b)
  {
    var la, lb := Lines(a), Lines(b);
    var t := a + "\n" + b;
    assert [c] + a + "\n" + b == [c] + t;
    var first := [c] + la[0];
    assert Lines([c] + t) == [first] + (la[1..] + lb) by {
      LinesChar(c, t);
      assert (la + lb)[0] == la[0];
      assert (la + lb)[1..] == la[1..] + lb;
    }
    assert Lines([c] + a) == [first] + la[1..] by {
      LinesChar(c, a);
    }
    assert [first] + (la[1..] + lb) == ([first] + la[1..]) + lb;
  }

  /** Splitting at a newline separates the two sides. */
  lemma {:induction false} LinesAppend(a: string, b: string)
    ensures Lines(a + "\n" + b) == Lines(a) + Lines(b)
    decreases |a|
  {
    if a == [] {
      assert a + "\n" + b == "\n" + b;
      LinesNewline(b);
    } else {
      LinesAppend(a[1..], b);
      assert a == [a[0]] + a[1..];
      if a[0] == '\n' {
        LinesAppendNewline(a[1..], b);
      } else {
        LinesAppendChar(a[0], a[1..], b);
      }
    }
  }

  /** Splitting joined newline-free lines gives the lines back. */
  lemma {:induction false} LinesJoin(lines: seq<string>)
    requires |lines| >= 1 && AllNoNewline(lines)
    ensures Lines(Join(lines)) == lines
  {
    if |lines| == 1 {
      LinesPrefix(lines[0], "");
      assert lines[0] + "" == lines[0];
    } else {
      LinesJoin(lines[1..]);
      LinesAppend(lines[0], Join(lines[1..]));
      LinesPrefix(lines[0], "");
      assert lines[0] + "" == lines[0];
      assert lines == [lines[0]] + lines[1..];
    }
  }
}
