/** `format_xml`: the raw ALTO XML re-indented line by line, two spaces per
    open element, blank lines dropped. Tags are recognised only by how a
    trimmed line starts and ends; nothing is parsed. */
module FormatXml {
  import opened Basics
  import opened Text

  /** A line that closes an element. */
  predicate Closes(t: string) {
    StartsWith(t, "</")
  }

  /** A line that opens an element: a tag that is not a closing tag, not
      self-closing and not a processing instruction. */
  predicate Opens(t: string) {
    StartsWith(t, "<") && !StartsWith(t, "</") && !EndsWith(t, "/>") && !StartsWith(t, "<?")
  }

  /** The level a line is written at: one less than the current level for a
      closing tag, never below zero. */
  function IndentFor(level: nat, t: string): (k: nat)
    ensures k <= level <= k + 1
    ensures k < level <==> Closes(t) && level > 0
  {
    if Closes(t) then (if level == 0 then 0 else level - 1) else level
  }

  /** The level after a line: the one it was written at, plus one if it opens. */
  function LevelAfterLine(level: nat, t: string): nat {
    IndentFor(level, t) + (if Opens(t) then 1 else 0)
  }

  /** A line as it comes out: trimmed, not blank. */
  predicate Trimmed(t: string) {
    t != [] && !IsWhitespace(t[0]) && !IsWhitespace(t[|t| - 1])
  }

  /** The trimmed lines that are not blank, in order. */
  function Kept(ls: seq<string>): (ts: seq<string>)
    ensures |ts| <= |ls|
    ensures forall i :: 0 <= i < |ts| ==> Trimmed(ts[i])
    ensures ts == [] <==> AllBlank(ls)
  {
    if ls == [] then []
    else
      var t := Trim(ls[|ls| - 1]);
      var ks := Kept(ls[..|ls| - 1]);
      AppendTrimmed(ks, t);
      TrimBlank(ls[|ls| - 1]);
      AllBlankSnoc(ls, ls[..|ls| - 1]);
      ks + (if t == [] then [] else [t])
  }

  /** Every line is whitespace only. */
  predicate AllBlank(ls: seq<string>) {
    forall i :: 0 <= i < |ls| ==> IsBlank(ls[i])
  }

  lemma AllBlankSnoc(ls: seq<string>, init: seq<string>)
    requires ls != [] && init == ls[..|ls| - 1]
    ensures AllBlank(ls) <==> AllBlank(init) && IsBlank(ls[|ls| - 1])
  {
    assert forall i :: 0 <= i < |init| ==> init[i] == ls[i];
  }

  /** A single line is dropped when it is blank and kept trimmed otherwise. */
  lemma KeptOne(l: string)
    ensures Kept([l]) == if Trim(l) == [] then [] else [Trim(l)]
  {
    assert [l][..0] == [];
  }

  /** Lines are kept one at a time: the kept lines of `a + b` are those of
      `a` followed by those of `b`. */
  lemma {:induction false} KeptAppend(a: seq<string>, b: seq<string>)
    ensures Kept(a + b) == Kept(a) + Kept(b)
    decreases |b|
  {
    if b == [] {
      assert a + b == a;
    } else {
      var c, l := b[..|b| - 1], b[|b| - 1];
      var t := if Trim(l) == [] then [] else [Trim(l)];
      SplitLast(b);
      ConcatAssoc(a, c, [l]);
      KeptSnoc(a + c, l);
      KeptSnoc(c, l);
      KeptAppend(a, c);
      ConcatAssoc(Kept(a), Kept(c), t);
    }
  }

  lemma KeptSnoc(ls: seq<string>, l: string)
    ensures Kept(ls + [l]) == Kept(ls) + (if Trim(l) == [] then [] else [Trim(l)])
  {
    assert (ls + [l])[..|ls|] == ls;
  }

  lemma AppendTrimmed(ks: seq<string>, t: string)
    requires forall i :: 0 <= i < |ks| ==> Trimmed(ks[i])
    requires t == [] || Trimmed(t)
    ensures var ts := ks + (if t == [] then [] else [t]);
            forall i :: 0 <= i < |ts| ==> Trimmed(ts[i])
  {
  }

  /** The level after the lines `ts` have been written, starting at zero. */
  function LevelAfter(ts: seq<string>): nat {
    if ts == [] then 0 else LevelAfterLine(LevelAfter(ts[..|ts| - 1]), ts[|ts| - 1])
  }

  /** Each kept line behind two spaces per level it is written at. */
  function Indented(ts: seq<string>): (out: seq<string>)
    ensures |out| == |ts|
  {
    if ts == [] then []
    else
      var init := ts[..|ts| - 1];
      var t := ts[|ts| - 1];
      Indented(init) + [Repeat(' ', 2 * IndentFor(LevelAfter(init), t)) + t]
  }

  /** The formatted document: every indented line followed by a newline. */
  function Formatted(xml: string): string {
    JoinLines(Indented(Kept(Lines(xml))))
  }

  /** Line `i` of the output is line `i` of the input behind the indentation
      of the level the lines before it leave, adjusted for a closing tag. */
  lemma {:induction false} IndentedAt(ts: seq<string>, i: nat)
    requires i < |ts|
    ensures Indented(ts)[i] == Repeat(' ', 2 * IndentFor(LevelAfter(ts[..i]), ts[i])) + ts[i]
  {
    var init := ts[..|ts| - 1];
    if i < |ts| - 1 {
      assert init[..i] == ts[..i] && init[i] == ts[i];
      IndentedAt(init, i);
    } else {
      assert init == ts[..i];
    }
  }

  /** Trimming an output line gives back the kept line. */
  lemma KeptIndented(ts: seq<string>)
    requires forall i :: 0 <= i < |ts| ==> Trimmed(ts[i])
    ensures Kept(Indented(ts)) == ts
  {
    var out := Indented(ts);
    forall i | 0 <= i < |ts| ensures Trim(out[i]) == ts[i] && ts[i] != [] {
      TrimIndentedAt(ts, i);
    }
    KeptAllTrimmed(out, ts);
  }

  lemma TrimIndentedAt(ts: seq<string>, i: nat)
    requires i < |ts| && Trimmed(ts[i])
    ensures Trim(Indented(ts)[i]) == ts[i]
  {
    IndentedAt(ts, i);
    var pad := Repeat(' ', 2 * IndentFor(LevelAfter(ts[..i]), ts[i]));
    SpacesBlank(|pad|);
    TrimIndented(pad, ts[i]);
  }

  lemma SpacesBlank(k: nat)
    ensures IsBlank(Repeat(' ', k))
  {
    forall i | 0 <= i < k ensures IsWhitespace(Repeat(' ', k)[i]) {
      assert Repeat(' ', k)[i] == ' ';
    }
  }

  /** Lines that all trim to non-blank text are kept, each as its trimmed text. */
  lemma {:induction false} KeptAllTrimmed(ls: seq<string>, ts: seq<string>)
    requires |ls| == |ts|
    requires forall i :: 0 <= i < |ls| ==> Trim(ls[i]) == ts[i] && ts[i] != []
    ensures Kept(ls) == ts
  {
    if ls != [] {
      var n := |ls| - 1;
      KeptAllTrimmed(ls[..n], ts[..n]);
      SplitLast(ts);
    }
  }

  /** Trimming adds no character the line did not have. */
  lemma TrimWithin(s: string, c: char)
    requires c !in s
    ensures c !in Trim(s)
  {
    var r, a := Trim(s), |s| - |TrimStart(s)|;
    assert r == s[a..a + |r|];
    forall i | 0 <= i < |r| ensures r[i] != c {
      assert r[i] == s[a + i];
    }
  }

  lemma {:induction false} KeptNoNewline(ls: seq<string>)
    requires forall i :: 0 <= i < |ls| ==> '\n' !in ls[i]
    ensures forall i :: 0 <= i < |Kept(ls)| ==> '\n' !in Kept(ls)[i]
  {
    if ls != [] {
      KeptNoNewline(ls[..|ls| - 1]);
      TrimWithin(ls[|ls| - 1], '\n');
    }
  }

  lemma IndentedNoNewline(ts: seq<string>)
    requires forall i :: 0 <= i < |ts| ==> Trimmed(ts[i]) && '\n' !in ts[i]
    ensures forall i :: 0 <= i < |ts| ==>
              '\n' !in Indented(ts)[i] && !EndsWith(Indented(ts)[i], "\r")
  {
    forall i | 0 <= i < |ts|
      ensures '\n' !in Indented(ts)[i] && !EndsWith(Indented(ts)[i], "\r")
    {
      IndentedAt(ts, i);
      var pad := Repeat(' ', 2 * IndentFor(LevelAfter(ts[..i]), ts[i]));
      var line := pad + ts[i];
      assert line[|line| - 1] == ts[i][|ts[i]| - 1];
      assert IsWhitespace('\r');
    }
  }

  /** Splitting the output into lines gives back the indented lines. */
  lemma LinesOfFormatted(xml: string)
    ensures Lines(Formatted(xml)) == Indented(Kept(Lines(xml)))
  {
    var ts := Kept(Lines(xml));
    KeptNoNewline(Lines(xml));
    IndentedNoNewline(ts);
    LinesOfJoinLines(Indented(ts));
  }

  /** Formatting formatted output changes nothing. */
  lemma FormattedIdempotent(xml: string)
    ensures Formatted(Formatted(xml)) == Formatted(xml)
  {
    var ts := Kept(Lines(xml));
    LinesOfFormatted(xml);
    KeptIndented(ts);
  }

  /** Appending one line to a joined text. */
  lemma {:induction false} JoinLinesSnoc(ls: seq<string>, l: string)
    ensures JoinLines(ls + [l]) == JoinLines(ls) + l + "\n"
  {
    if ls == [] {
      assert [] + [l] == [l];
      assert JoinLines([l]) == l + "\n" + JoinLines([]);
    } else {
      assert (ls + [l])[1..] == ls[1..] + [l];
      JoinLinesSnoc(ls[1..], l);
    }
  }

  /** The source's loop over `raw_xml.lines()`. */
  method FormatXmlText(xml: string) returns (formatted: string)
    ensures formatted == Formatted(xml)
  {
    formatted := "";
    var indentLevel: nat := 0;
    var lines := Lines(xml);
    var i := 0;
    while i < |lines|
      invariant i <= |lines|
      invariant formatted == JoinLines(Indented(Kept(lines[..i])))
      invariant indentLevel == LevelAfter(Kept(lines[..i]))
    {
      PrefixStep(lines, i);
      formatted, indentLevel := FormatLine(formatted, indentLevel, Kept(lines[..i]), lines[i]);
      i := i + 1;
    }
    WholePrefix(lines);
  }

  /** One round of that loop: a blank line is skipped; any other line is
      written at its level and then moves the level. */
  method FormatLine(formatted0: string, level0: nat, before: seq<string>, line: string)
    returns (formatted: string, indentLevel: nat)
    requires formatted0 == JoinLines(Indented(before)) && level0 == LevelAfter(before)
    ensures var after := before + (if Trim(line) == [] then [] else [Trim(line)]);
            formatted == JoinLines(Indented(after)) && indentLevel == LevelAfter(after)
  {
    formatted, indentLevel := formatted0, level0;
    var trimmed := Trim(line);
    if trimmed == [] {
      assert before + [] == before;
      return;
    }
    if StartsWith(trimmed, "</") {
      indentLevel := if indentLevel == 0 then 0 else indentLevel - 1;
    }
    assert indentLevel == IndentFor(level0, trimmed);
    formatted := formatted + (Repeat(' ', 2 * indentLevel) + trimmed);
    formatted := formatted + "\n";
    if StartsWith(trimmed, "<") && !StartsWith(trimmed, "</") && !EndsWith(trimmed, "/>") && !StartsWith(trimmed, "<?") {
      indentLevel := indentLevel + 1;
    }
    assert indentLevel == LevelAfterLine(level0, trimmed);
    WriteKeptLine(before, trimmed);
  }

  /** Writing one more kept line appends it at its level and moves the level. */
  lemma WriteKeptLine(before: seq<string>, t: string)
    ensures var k := IndentFor(LevelAfter(before), t);
            JoinLines(Indented(before + [t])) == JoinLines(Indented(before)) + (Repeat(' ', 2 * k) + t) + "\n"
    ensures LevelAfter(before + [t]) == LevelAfterLine(LevelAfter(before), t)
  {
    var after := before + [t];
    assert after[..|after| - 1] == before && after[|after| - 1] == t;
    JoinLinesSnoc(Indented(before), Repeat(' ', 2 * IndentFor(LevelAfter(before), t)) + t);
  }

  /** A closing tag at level zero stays at level zero. */
  lemma CloseAtTopSaturates(t: string)
    requires t == "</a>"
    ensures Indented([t]) == [t] && LevelAfter([t]) == 0
  {
    assert t[..2] == "</";
    assert [t][..0] == [];
    assert Repeat(' ', 0) + t == t;
  }

  /** An element's children sit two spaces in, its closing tag back out. */
  lemma NestedElement(a: string, b: string, c: string)
    requires a == "<a>" && b == "<b/>" && c == "</a>"
    ensures Indented([a, b, c]) == [a, "  " + b, c]
    ensures LevelAfter([a, b, c]) == 0
  {
    TagKinds(a, b, c);
    assert [a][..0] == [] && [a, b, c][..2] == [a, b] && [a, b][..1] == [a];
    assert [a] + [b] == [a, b] && [a, b] + [c] == [a, b, c];
    assert [a] + ["  " + b] == [a, "  " + b] && [a, "  " + b] + [c] == [a, "  " + b, c];
    assert LevelAfter([a]) == 1;
    assert LevelAfter([a, b]) == 1;
    assert Repeat(' ', 2) == "  " && Repeat(' ', 0) + a == a && Repeat(' ', 0) + c == c;
    assert Indented([a]) == [a];
    assert Indented([a, b]) == [a] + ["  " + b];
  }

  lemma TagKinds(a: string, b: string, c: string)
    requires a == "<a>" && b == "<b/>" && c == "</a>"
    ensures Opens(a) && !Closes(a) && !Opens(b) && !Closes(b) && Closes(c) && !Opens(c)
  {
    assert a[..1] == "<" && a[..2][1] == 'a' && a[1..][0] == 'a';
    assert b[..2][1] == 'b' && b[2..] == "/>";
    assert c[..2] == "</";
  }
}
