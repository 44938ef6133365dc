// Line classification: the two anchored patterns that golit uses to tell
// documentation lines from code lines, written out as predicates, and the
// comment-prefix removal applied to documentation lines.
//
//   docsPat   = ^\s*//\s
//   headerPat = ^//\s#+\s
//
// In the regular-expression dialect used here (RE2), `\s` is the ASCII class
// [\t\n\f\r ].

module Classify {

  /** RE2's `\s`: tab, newline, form feed, carriage return, space. */
  predicate IsSpace(c: char) {
    c == '\t' || c == '\n' || c == '\U{C}' || c == '\r' || c == ' '
  }

  predicate AllSpace(s: string) {
    forall i :: 0 <= i < |s| ==> IsSpace(s[i])
  }

  /** Length of the maximal run of whitespace at the start of `s`. */
  function LeadingSpace(s: string): (n: nat)
    ensures n <= |s|
    ensures AllSpace(s[..n])
    ensures n < |s| ==> !IsSpace(s[n])
  {
    if s != [] && IsSpace(s[0]) then
      assert s[..1 + LeadingSpace(s[1..])] == [s[0]] + s[1..][..LeadingSpace(s[1..])];
      1 + LeadingSpace(s[1..])
    else 0
  }

  /** Length of the maximal run of '#' at the start of `s`. */
  function HashRun(s: string): (n: nat)
    ensures n <= |s|
    ensures forall i :: 0 <= i < n ==> s[i] == '#'
    ensures n < |s| ==> s[n] != '#'
  {
    if s != [] && s[0] == '#' then 1 + HashRun(s[1..]) else 0
  }

  /** `docsPat` matches: maximal leading whitespace, then "//", then one
      whitespace character. (A shorter whitespace prefix can never be
      followed by '/', so the maximal one is the only candidate.) */
  predicate DocsMatch(line: string) {
    var w := LeadingSpace(line);
    w + 3 <= |line| && line[w] == '/' && line[w + 1] == '/' && IsSpace(line[w + 2])
  }

  /** `headerPat` matches: "//" at column 0, one whitespace character, one or
      more '#', then one whitespace character. */
  predicate HeaderMatch(line: string) {
    |line| >= 3 && line[0] == '/' && line[1] == '/' && IsSpace(line[2]) &&
    var k := HashRun(line[3..]);
    k >= 1 && 3 + k < |line| && IsSpace(line[3 + k])
  }

  /** `docsPat.ReplaceAllString(line, "")`: the pattern is anchored at the
      start, so at most one match is removed; a line it does not match is
      returned unchanged. */
  function Strip(line: string): string {
    if DocsMatch(line) then line[LeadingSpace(line) + 3..] else line
  }

  function Hashes(k: nat): (s: string)
    ensures |s| == k && forall i :: 0 <= i < k ==> s[i] == '#'
  {
    if k == 0 then "" else "#" + Hashes(k - 1)
  }

  /** The maximal leading whitespace of `w + t` is `w` when `t` does not start
      with whitespace. */
  lemma {:induction false} LeadingSpaceOf(w: string, t: string)
    requires AllSpace(w)
    requires t == [] || !IsSpace(t[0])
    ensures LeadingSpace(w + t) == |w|
  {
    if w != [] {
      assert (w + t)[1..] == w[1..] + t;
      LeadingSpaceOf(w[1..], t);
    } else {
      assert w + t == t;
    }
  }

  /** A documentation line is whitespace, "//", one whitespace character and
      the stripped text, in that order. */
  lemma DocsDecompose(line: string)
    requires DocsMatch(line)
    ensures var w := LeadingSpace(line);
            AllSpace(line[..w]) && IsSpace(line[w + 2]) &&
            line == line[..w] + "//" + [line[w + 2]] + Strip(line)
  {
    var w := LeadingSpace(line);
    assert line == line[..w] + line[w..w + 2] + [line[w + 2]] + line[w + 3..];
  }

  /** Conversely, any line built from whitespace, "//", one whitespace
      character and a text `t` is a documentation line that strips to `t`. */
  lemma DocsCompose(w: string, c: char, t: string)
    requires AllSpace(w) && IsSpace(c)
    ensures DocsMatch(w + "//" + [c] + t)
    ensures Strip(w + "//" + [c] + t) == t
  {
    var line := w + "//" + [c] + t;
    LeadingSpaceOf(w, "//" + [c] + t);
    assert line == w + ("//" + [c] + t);
    assert line[|w| + 3..] == t;
  }

  /** A header line also matches `docsPat`, and stripping removes exactly
      its first three characters, so the heading text keeps its '#'s. */
  lemma HeaderIsDocs(line: string)
    requires HeaderMatch(line)
    ensures DocsMatch(line)
    ensures Strip(line) == line[3..] && Strip(line)[0] == '#'
  {
    assert LeadingSpace(line) == 0;
  }

  /** A header line is "//", whitespace, k >= 1 hashes, whitespace and the rest. */
  lemma HeaderDecompose(line: string)
    requires HeaderMatch(line)
    ensures var k := HashRun(line[3..]);
            k >= 1 && IsSpace(line[2]) && IsSpace(line[3 + k]) &&
            line == "//" + [line[2]] + Hashes(k) + [line[3 + k]] + line[4 + k..]
  {
    var k := HashRun(line[3..]);
    assert line[3..3 + k] == Hashes(k);
    assert line == line[..2] + [line[2]] + line[3..3 + k] + [line[3 + k]] + line[4 + k..];
  }

  /** Conversely, any such composition is a header line. */
  lemma HeaderCompose(c1: char, k: nat, c2: char, t: string)
    requires IsSpace(c1) && IsSpace(c2) && k >= 1
    ensures HeaderMatch("//" + [c1] + Hashes(k) + [c2] + t)
  {
    var tail := [c2] + t;
    var rest := Hashes(k) + tail;
    var line := "//" + [c1] + Hashes(k) + [c2] + t;
    assert line == "//" + [c1] + rest;
    assert line[3..] == rest;
    HashRunOf(k, tail);
  }

  lemma {:induction false} HashRunOf(k: nat, t: string)
    requires t == [] || t[0] != '#'
    ensures HashRun(Hashes(k) + t) == k
  {
    if k > 0 {
      assert (Hashes(k) + t)[1..] == Hashes(k - 1) + t;
      HashRunOf(k - 1, t);
    } else {
      assert Hashes(k) + t == t;
    }
  }

  /** Only text starting with a comment marker is documentation: an empty or
      whitespace-only line matches neither pattern, and stripping leaves it
      as it is. */
  lemma BlankIsNotDocs(line: string)
    requires AllSpace(line)
    ensures !DocsMatch(line) && !HeaderMatch(line) && Strip(line) == line
  {
  }
}
