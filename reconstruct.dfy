/** `generate_readable_text` (and its copy over a subset of the words,
    `generate_readable_text_from_elements`): the words are taken in ascending
    VPOS order and grouped into lines, each line is ordered by HPOS, and the
    lines are written out with spaces and blank lines that follow the gaps on
    the page. */
module Reconstruct {
  import opened Basics
  import opened Geometry
  import opened Text
  import opened Sorting

  function VposOf(e: SpatialElement): int { e.vpos }

  function HposOf(e: SpatialElement): int { e.hpos }

  // ----- grouping into lines -----

  /** An element joins a line when the VPOS of the line's first element is
      less than 8 away from its own. */
  predicate Joins(line: seq<SpatialElement>, e: SpatialElement) {
    line != [] && Abs(e.vpos - line[0].vpos) < 8
  }

  /** The line `lines.iter_mut().find(..)` picks: the first one `e` joins, or
      `|lines|` when it joins none. */
  function FirstJoined(lines: seq<seq<SpatialElement>>, e: SpatialElement): (k: nat)
    ensures k <= |lines|
    ensures k < |lines| ==> Joins(lines[k], e)
    ensures forall j :: 0 <= j < k ==> !Joins(lines[j], e)
  {
    if lines == [] then 0
    else if Joins(lines[0], e) then 0
    else 1 + FirstJoined(lines[1..], e)
  }

  /** The element goes to the end of the first line it joins, or opens a new
      line after all the others. */
  function AddToLines(lines: seq<seq<SpatialElement>>, e: SpatialElement): seq<seq<SpatialElement>> {
    var k := FirstJoined(lines, e);
    if k < |lines| then lines[k := lines[k] + [e]] else lines + [[e]]
  }

  /** The lines after grouping the elements of `es` one by one, in order. */
  function GroupLines(es: seq<SpatialElement>): seq<seq<SpatialElement>> {
    if es == [] then [] else AddToLines(GroupLines(es[..|es| - 1]), es[|es| - 1])
  }

  /** All the elements of the lines, line after line. */
  function Flatten(lines: seq<seq<SpatialElement>>): seq<SpatialElement> {
    if lines == [] then [] else Flatten(lines[..|lines| - 1]) + lines[|lines| - 1]
  }

  /** No line is empty, every element lies less than 8 from its line's first
      element's VPOS, and the first elements of two lines are at least 8 apart. */
  predicate Coherent(lines: seq<seq<SpatialElement>>) {
    (forall l :: 0 <= l < |lines| ==> lines[l] != [])
    && (forall l, j :: 0 <= l < |lines| && 0 <= j < |lines[l]| ==>
          Abs(lines[l][j].vpos - lines[l][0].vpos) < 8)
    && (forall a, b :: 0 <= a < b < |lines| ==> Abs(lines[a][0].vpos - lines[b][0].vpos) >= 8)
  }

  lemma AddKeepsCoherent(lines: seq<seq<SpatialElement>>, e: SpatialElement)
    requires Coherent(lines)
    ensures Coherent(AddToLines(lines, e))
  {
    var k := FirstJoined(lines, e);
    var r: seq<seq<SpatialElement>> := AddToLines(lines, e);
    if k < |lines| {
      forall l: int, j: int | 0 <= l < |r| && 0 <= j < |r[l]|
        ensures Abs(r[l][j].vpos - r[l][0].vpos) < 8
      {
        if l == k && j == |lines[k]| {
          assert r[l][j] == e && r[l][0] == lines[k][0];
        } else {
          assert r[l][j] == lines[l][j] && r[l][0] == lines[l][0];
        }
      }
    } else {
      forall a: int, b: int | 0 <= a < b < |r| ensures Abs(r[a][0].vpos - r[b][0].vpos) >= 8 {
        if b == |lines| {
          assert !Joins(lines[a], e);
        }
      }
    }
  }

  /** Grouping yields coherent lines. */
  lemma {:induction false} GroupLinesCoherent(es: seq<SpatialElement>)
    ensures Coherent(GroupLines(es))
  {
    if es != [] {
      GroupLinesCoherent(es[..|es| - 1]);
      AddKeepsCoherent(GroupLines(es[..|es| - 1]), es[|es| - 1]);
    }
  }

  lemma {:induction false} FlattenUpdate(lines: seq<seq<SpatialElement>>, k: nat, e: SpatialElement)
    requires k < |lines|
    ensures multiset(Flatten(lines[k := lines[k] + [e]])) == multiset(Flatten(lines)) + multiset{e}
  {
    var r := lines[k := lines[k] + [e]];
    var n := |lines|;
    assert r[..n - 1] == if k == n - 1 then lines[..n - 1] else lines[..n - 1][k := lines[k] + [e]];
    if k < n - 1 {
      FlattenUpdate(lines[..n - 1], k, e);
    }
  }

  /** Every element lands in exactly one line, and no line gains anything else. */
  lemma {:induction false} GroupLinesPartition(es: seq<SpatialElement>)
    ensures multiset(Flatten(GroupLines(es))) == multiset(es)
  {
    if es != [] {
      var init, e := es[..|es| - 1], es[|es| - 1];
      assert es == init + [e];
      GroupLinesPartition(init);
      var lines := GroupLines(init);
      var k := FirstJoined(lines, e);
      if k < |lines| {
        FlattenUpdate(lines, k, e);
      } else {
        assert (lines + [[e]])[..|lines|] == lines;
      }
    }
  }

  lemma {:induction false} InFlatten(lines: seq<seq<SpatialElement>>, l: nat, j: nat)
    requires l < |lines| && j < |lines[l]|
    ensures lines[l][j] in Flatten(lines)
  {
    if l < |lines| - 1 {
      InFlatten(lines[..|lines| - 1], l, j);
    }
  }

  /** Over elements in ascending VPOS order the lines come out in ascending
      order of their first element's VPOS, each at least 8 below the one before. */
  lemma {:induction false} GroupLinesAscending(es: seq<SpatialElement>)
    requires SortedBy(es, VposOf)
    ensures Coherent(GroupLines(es))
    ensures Ascending(GroupLines(es))
  {
    GroupLinesCoherent(es);
    if es != [] {
      var init, e := es[..|es| - 1], es[|es| - 1];
      assert es == init + [e];
      GroupLinesAscending(init);
      GroupLinesCoherent(init);
      HeadsAbove(init, e);
      AddKeepsAscending(GroupLines(init), e);
    }
  }

  /** The first elements of the lines lie 8 or more apart, in ascending VPOS. */
  predicate Ascending(lines: seq<seq<SpatialElement>>)
    requires forall l :: 0 <= l < |lines| ==> lines[l] != []
  {
    forall a, b :: 0 <= a < b < |lines| ==> lines[a][0].vpos + 8 <= lines[b][0].vpos
  }

  /** Over sorted elements, every line grouped so far starts at or above the
      next element. */
  lemma HeadsAbove(init: seq<SpatialElement>, e: SpatialElement)
    requires SortedBy(init + [e], VposOf)
    requires Coherent(GroupLines(init))
    ensures forall l :: 0 <= l < |GroupLines(init)| ==> GroupLines(init)[l][0].vpos <= e.vpos
  {
    var lines: seq<seq<SpatialElement>> := GroupLines(init);
    var es := init + [e];
    GroupLinesPartition(init);
    forall l: int | 0 <= l < |lines| ensures lines[l][0].vpos <= e.vpos {
      InFlatten(lines, l, 0);
      assert lines[l][0] in multiset(init);
      var m :| 0 <= m < |init| && init[m] == lines[l][0];
      assert es[m] == init[m] && es[|es| - 1] == e;
      assert VposOf(es[m]) <= VposOf(es[|es| - 1]);
    }
  }

  /** Adding an element at or below every line's start keeps the lines ascending. */
  lemma AddKeepsAscending(lines: seq<seq<SpatialElement>>, e: SpatialElement)
    requires Coherent(lines) && Ascending(lines)
    requires forall l :: 0 <= l < |lines| ==> lines[l][0].vpos <= e.vpos
    ensures Coherent(AddToLines(lines, e))
    ensures Ascending(AddToLines(lines, e))
  {
    AddKeepsCoherent(lines, e);
    var r: seq<seq<SpatialElement>> := AddToLines(lines, e);
    forall a: int, b: int | 0 <= a < b < |r| ensures r[a][0].vpos + 8 <= r[b][0].vpos {
      if FirstJoined(lines, e) < |lines| {
        assert r[a][0] == lines[a][0] && r[b][0] == lines[b][0];
      } else if b == |lines| {
        assert !Joins(lines[a], e);
      }
    }
  }

  // ----- writing the lines out -----

  /** Spaces between two words of a line, from the gap between the end of the
      previous word and the start of this one: one per 8 units of gap, at
      least 1 and at most 10, and a single space for a gap of at most 3. */
  function SeparatorWidth(lastEnd: int, hpos: int): (n: nat)
    ensures 1 <= n <= 10
    ensures hpos - lastEnd <= 3 ==> n == 1
    ensures hpos - lastEnd >= 8 ==> n * 8 <= hpos - lastEnd
    ensures 3 < hpos - lastEnd < 88 ==> hpos - lastEnd < (n + 1) * 8
    ensures 3 < hpos - lastEnd < 16 ==> n == 1
    ensures hpos - lastEnd >= 88 ==> n == 10
  {
    var gap := hpos - lastEnd;
    if gap > 3 then Clamp(gap / 8, 1, 10) else 1
  }

  /** Blank lines put before a line: only after a line whose VPOS is positive
      and more than 15 above it, then one per 12 units of gap, at most 3. */
  function ExtraNewlines(lastVpos: int, vpos: int): (n: nat)
    ensures n <= 3
    ensures n > 0 <==> lastVpos > 0 && vpos - lastVpos > 15
    ensures n > 0 ==> n * 12 <= vpos - lastVpos && (n < 3 ==> vpos - lastVpos < (n + 1) * 12)
  {
    if lastVpos > 0 && vpos - lastVpos > 15 then Clamp((vpos - lastVpos) / 12, 1, 3) else 0
  }

  /** `last_end_pos` once the elements of `line` are placed. */
  function LastEnd(line: seq<SpatialElement>): int {
    if line == [] then 0 else line[|line| - 1].hpos + line[|line| - 1].width
  }

  /** `line_text` once the elements of `line` are placed: a separator goes
      before an element only when the text so far is not empty. */
  function LineText(line: seq<SpatialElement>): string {
    if line == [] then ""
    else
      var init, e := line[..|line| - 1], line[|line| - 1];
      var t := LineText(init);
      t + (if t != [] then Repeat(' ', SeparatorWidth(LastEnd(init), e.hpos)) else "") + e.content
  }

  /** `last_vpos` once `lines` are written: the VPOS of the first element of
      the last non-empty line, 0 before any. */
  function LastVpos(lines: seq<seq<SpatialElement>>): int {
    if lines == [] then 0
    else if lines[|lines| - 1] == [] then LastVpos(lines[..|lines| - 1])
    else lines[|lines| - 1][0].vpos
  }

  /** `output` once `lines` are written: each non-empty line is preceded by
      its blank lines and followed by one line break. */
  function Render(lines: seq<seq<SpatialElement>>): string {
    if lines == [] then ""
    else
      var init, line := lines[..|lines| - 1], lines[|lines| - 1];
      if line == [] then Render(init)
      else Render(init) + Repeat('\n', ExtraNewlines(LastVpos(init), line[0].vpos)) + LineText(line) + "\n"
  }

  /** Each line sorted by HPOS. */
  function SortLines(lines: seq<seq<SpatialElement>>): seq<seq<SpatialElement>> {
    seq(|lines|, i requires 0 <= i < |lines| => SortBy(lines[i], HposOf))
  }

  /** The lines as they are written: grouped in ascending VPOS order, then
      each ordered by HPOS. */
  function Layout(es: seq<SpatialElement>): seq<seq<SpatialElement>> {
    SortLines(GroupLines(SortBy(es, VposOf)))
  }

  /** The text `generate_readable_text` returns for the elements `es`. */
  function ReadableText(es: seq<SpatialElement>): string {
    Render(Layout(es))
  }

  // ----- what the text holds -----

  /** A non-empty run of non-whitespace characters. */
  predicate IsWord(s: string) {
    s != [] && forall i :: 0 <= i < |s| ==> !IsWhitespace(s[i])
  }

  /** The contents of the elements, in order. */
  function Contents(es: seq<SpatialElement>): seq<string> {
    if es == [] then [] else Contents(es[..|es| - 1]) + [es[|es| - 1].content]
  }

  lemma {:induction false} ContentsAppend(a: seq<SpatialElement>, b: seq<SpatialElement>)
    ensures Contents(a + b) == Contents(a) + Contents(b)
    decreases |b|
  {
    if b == [] {
      assert a + b == a;
    } else {
      assert (a + b)[..|a + b| - 1] == a + b[..|b| - 1];
      ContentsAppend(a, b[..|b| - 1]);
    }
  }

  /** A line of single words reads back as those words: words are never run
      together and never split. */
  lemma {:induction false} LineWords(line: seq<SpatialElement>)
    requires forall j :: 0 <= j < |line| ==> IsWord(line[j].content)
    ensures Words(LineText(line)) == Contents(line)
    ensures line != [] ==> LineText(line) != []
    ensures LineText(line) == [] || !IsWhitespace(LineText(line)[|LineText(line)| - 1])
  {
    if line != [] {
      var init, e := line[..|line| - 1], line[|line| - 1];
      var t := LineText(init);
      LineWords(init);
      WordsOfWord(e.content, []);
      assert e.content + [] == e.content;
      if t == [] {
        assert LineText(line) == e.content;
      } else {
        var sp := Repeat(' ', SeparatorWidth(LastEnd(init), e.hpos));
        assert LineText(line) == (t + sp) + e.content;
        WordsSpaced(t, sp, e.content);
      }
    }
  }

  /** A word written after a run of spaces is a word of its own. */
  lemma WordsSpaced(t: string, sp: string, w: string)
    requires sp != [] && forall i :: 0 <= i < |sp| ==> sp[i] == ' '
    requires IsWord(w)
    ensures Words((t + sp) + w) == Words(t) + [w]
  {
    assert IsBlank(sp) by {
      forall i | 0 <= i < |sp| ensures IsWhitespace(sp[i]) {
        assert sp[i] == ' ';
      }
    }
    WordsConcat(t, sp);
    WordsAfterBlank(sp, []);
    assert sp + [] == sp;
    WordsConcat(t + sp, w);
    WordsOfWord(w, []);
    assert w + [] == w;
  }

  /** The written lines read back as the words of the lines, in order. */
  lemma {:induction false} RenderWords(lines: seq<seq<SpatialElement>>)
    requires forall l, j :: 0 <= l < |lines| && 0 <= j < |lines[l]| ==> IsWord(lines[l][j].content)
    ensures Words(Render(lines)) == Contents(Flatten(lines))
    ensures Render(lines) == [] || Render(lines)[|Render(lines)| - 1] == '\n'
  {
    if lines != [] {
      var init, line := lines[..|lines| - 1], lines[|lines| - 1];
      RenderWords(init);
      ContentsAppend(Flatten(init), line);
      if line == [] {
        assert Flatten(init) + line == Flatten(init);
      } else {
        BlockWords(Render(init), Repeat('\n', ExtraNewlines(LastVpos(init), line[0].vpos)), line);
      }
    }
  }

  /** One written line after text that ends a line adds the line's words. */
  lemma BlockWords(before: string, nl: string, line: seq<SpatialElement>)
    requires before == [] || before[|before| - 1] == '\n'
    requires IsBlank(nl)
    requires forall j :: 0 <= j < |line| ==> IsWord(line[j].content)
    ensures Words(before + nl + LineText(line) + "\n") == Words(before) + Contents(line)
    ensures (before + nl + LineText(line) + "\n")[|before + nl + LineText(line) + "\n"| - 1] == '\n'
  {
    var lt := LineText(line);
    var tail := nl + (lt + "\n");
    TailWords(nl, line);
    Regroup(before, nl, lt, "\n");
    assert IsWhitespace('\n');
    WordsConcat(before, tail);
  }

  /** Blank lines, then a written line and its line break, read as the
      line's words. */
  lemma TailWords(nl: string, line: seq<SpatialElement>)
    requires IsBlank(nl)
    requires forall j :: 0 <= j < |line| ==> IsWord(line[j].content)
    ensures Words(nl + (LineText(line) + "\n")) == Contents(line)
  {
    var lt := LineText(line);
    LineWords(line);
    WordsConcat(lt, "\n");
    assert Words("\n") == [];
    assert Contents(line) + [] == Contents(line);
    WordsAfterBlank(nl, lt + "\n");
  }

  lemma Regroup<T>(a: seq<T>, b: seq<T>, c: seq<T>, d: seq<T>)
    ensures a + b + c + d == a + (b + (c + d))
  {
  }

  lemma {:induction false} SortLinesFlatten(lines: seq<seq<SpatialElement>>)
    ensures multiset(Flatten(SortLines(lines))) == multiset(Flatten(lines))
  {
    if lines != [] {
      var n := |lines|;
      assert SortLines(lines)[..n - 1] == SortLines(lines[..n - 1]);
      SortLinesFlatten(lines[..n - 1]);
    }
  }

  /** The written lines hold the elements of `es`, each exactly once. */
  lemma LayoutPartition(es: seq<SpatialElement>)
    ensures multiset(Flatten(Layout(es))) == multiset(es)
  {
    GroupLinesPartition(SortBy(es, VposOf));
    SortLinesFlatten(GroupLines(SortBy(es, VposOf)));
  }

  /** When every element holds one word, the readable text holds exactly the
      words of the elements: in the order of the written lines, each word
      once, none run together with another. */
  lemma ReadableWords(es: seq<SpatialElement>)
    requires forall i :: 0 <= i < |es| ==> IsWord(es[i].content)
    ensures Words(ReadableText(es)) == Contents(Flatten(Layout(es)))
    ensures multiset(Flatten(Layout(es))) == multiset(es)
  {
    var lines: seq<seq<SpatialElement>> := Layout(es);
    LayoutPartition(es);
    forall l: int, j: int | 0 <= l < |lines| && 0 <= j < |lines[l]| ensures IsWord(lines[l][j].content) {
      InFlatten(lines, l, j);
      assert lines[l][j] in multiset(es);
    }
    RenderWords(lines);
  }

  // ----- the loops of `generate_readable_text` -----

  /** `generate_readable_text`, and `generate_readable_text_from_elements`
      on a subset of the words. */
  method GenerateReadableText(elements: seq<SpatialElement>) returns (output: string)
    ensures output == ReadableText(elements)
  {
    var sorted := SortBy(elements, VposOf);
    var lines := GroupIntoLines(sorted);
    lines := SortEachLine(lines);
    output := WriteLines(lines);
  }

  /** The grouping loop: each element joins the first line whose first
      element is less than 8 away in VPOS, or opens a new line. */
  method GroupIntoLines(sorted: seq<SpatialElement>) returns (lines: seq<seq<SpatialElement>>)
    ensures lines == GroupLines(sorted)
  {
    lines := [];
    var i := 0;
    while i < |sorted|
      invariant i <= |sorted|
      invariant lines == GroupLines(sorted[..i])
    {
      var e := sorted[i];
      var k := 0;
      while k < |lines| && !Joins(lines[k], e)
        invariant k <= |lines|
        invariant forall j :: 0 <= j < k ==> !Joins(lines[j], e)
      {
        k := k + 1;
      }
      FirstJoinedIs(lines, e, k);
      if k < |lines| {
        lines := lines[k := lines[k] + [e]];
      } else {
        lines := lines + [[e]];
      }
      assert sorted[..i + 1][..i] == sorted[..i];
      i := i + 1;
    }
    assert sorted[..i] == sorted;
  }

  /** The first line an element joins is the one the search stops at. */
  lemma {:induction false} FirstJoinedIs(lines: seq<seq<SpatialElement>>, e: SpatialElement, k: nat)
    requires k <= |lines| && (k < |lines| ==> Joins(lines[k], e))
    requires forall j :: 0 <= j < k ==> !Joins(lines[j], e)
    ensures FirstJoined(lines, e) == k
  {
    if k > 0 {
      FirstJoinedIs(lines[1..], e, k - 1);
    }
  }

  /** `line.sort_by(hpos)` for every line, in place. */
  method SortEachLine(lines0: seq<seq<SpatialElement>>) returns (lines: seq<seq<SpatialElement>>)
    ensures lines == SortLines(lines0)
  {
    lines := lines0;
    var j := 0;
    while j < |lines|
      invariant j <= |lines| == |lines0|
      invariant forall m :: 0 <= m < j ==> lines[m] == SortBy(lines0[m], HposOf)
      invariant forall m :: j <= m < |lines| ==> lines[m] == lines0[m]
    {
      lines := lines[j := SortBy(lines[j], HposOf)];
      j := j + 1;
    }
  }

  /** The writing loop: blank lines for a large vertical gap, then the line's
      text and a line break. */
  method WriteLines(lines: seq<seq<SpatialElement>>) returns (output: string)
    ensures output == Render(lines)
  {
    output := "";
    var lastVpos := 0;
    var j := 0;
    while j < |lines|
      invariant j <= |lines|
      invariant output == Render(lines[..j]) && lastVpos == LastVpos(lines[..j])
    {
      WrittenPrefix(lines, j);
      if lines[j] != [] {
        output, lastVpos := WriteBlock(output, lastVpos, lines[j]);
      }
      j := j + 1;
    }
    assert lines[..j] == lines;
  }

  /** The body of that loop for a non-empty line. */
  method WriteBlock(output0: string, lastVpos0: int, line: seq<SpatialElement>) returns (output: string, lastVpos: int)
    requires line != []
    ensures output == output0 + Repeat('\n', ExtraNewlines(lastVpos0, line[0].vpos)) + LineText(line) + "\n"
    ensures lastVpos == line[0].vpos
  {
    output, lastVpos := output0, lastVpos0;
    var currentVpos := line[0].vpos;
    // the section break: no line breaks unless the gap is large
    var extraLines := 0;
    if lastVpos > 0 {
      var verticalGap := currentVpos - lastVpos;
      if verticalGap > 15 {
        extraLines := Clamp(verticalGap / 12, 1, 3);
      }
    }
    output := output + Repeat('\n', extraLines);
    var lineText := WriteLine(line);
    output := output + lineText + "\n";
    lastVpos := currentVpos;
  }

  lemma WrittenPrefix(lines: seq<seq<SpatialElement>>, j: nat)
    requires j < |lines|
    ensures Render(lines[..j + 1]) == if lines[j] == [] then Render(lines[..j])
              else Render(lines[..j]) + Repeat('\n', ExtraNewlines(LastVpos(lines[..j]), lines[j][0].vpos)) + LineText(lines[j]) + "\n"
    ensures LastVpos(lines[..j + 1]) == if lines[j] == [] then LastVpos(lines[..j]) else lines[j][0].vpos
  {
    assert lines[..j + 1][..j] == lines[..j];
  }

  /** The loop over one line's elements. */
  method WriteLine(line: seq<SpatialElement>) returns (lineText: string)
    ensures lineText == LineText(line)
  {
    lineText := "";
    var lastEndPos := 0;
    var i := 0;
    while i < |line|
      invariant i <= |line|
      invariant lineText == LineText(line[..i]) && lastEndPos == LastEnd(line[..i])
    {
      var e := line[i];
      assert line[..i + 1][..i] == line[..i];
      if lineText != [] {
        var gap := e.hpos - lastEndPos;
        if gap > 3 {
          var spaces := Clamp(gap / 8, 1, 10);
          lineText := lineText + Repeat(' ', spaces);
        } else {
          assert Repeat(' ', 1) == " ";
          lineText := lineText + " ";
        }
      }
      lineText := lineText + e.content;
      lastEndPos := e.hpos + e.width;
      i := i + 1;
    }
    assert line[..i] == line;
  }

  // ----- examples -----

  /** No words, no text. */
  lemma EmptyText()
    ensures ReadableText([]) == ""
  {
  }

  /** Two elements form one line when they are less than 8 apart in VPOS,
      otherwise two. */
  lemma GroupPair(a: SpatialElement, b: SpatialElement)
    ensures GroupLines([a, b]) == if Abs(b.vpos - a.vpos) < 8 then [[a, b]] else [[a], [b]]
  {
    assert [a, b][..1] == [a];
    assert [a][..0] == [];
    assert GroupLines([a]) == [[a]];
    assert [[a]][1..] == [];
    assert FirstJoined([[a]], b) == if Joins([a], b) then 0 else 1;
    assert [a] + [b] == [a, b];
    assert [[a]][0 := [a, b]] == [[a, b]];
    assert [[a]] + [[b]] == [[a], [b]];
  }

  /** The first line never gets blank lines before it, and neither does a line
      after one at VPOS 0, however far below it is. */
  lemma NoGapAfterTopLine(a: SpatialElement, b: SpatialElement)
    requires a.content == "A" && a.vpos == 0 && b.content == "B" && b.vpos == 30
    ensures ReadableText([a, b]) == "A" + "\n" + "B" + "\n"
  {
    TwoLines(a, b);
    assert Repeat('\n', 0) == "";
  }

  /** A gap of 30 below a line at VPOS 10 puts two blank lines in between. */
  lemma SectionGap(a: SpatialElement, b: SpatialElement)
    requires a.content == "A" && a.vpos == 10 && b.content == "B" && b.vpos == 40
    ensures ReadableText([a, b]) == "A" + "\n" + "\n\n" + "B" + "\n"
  {
    TwoLines(a, b);
    assert ExtraNewlines(a.vpos, b.vpos) == 2;
    assert Repeat('\n', 2) == "\n\n";
  }

  /** Two elements at least 8 apart in VPOS, in that order, are written as
      two lines. */
  lemma TwoLines(a: SpatialElement, b: SpatialElement)
    requires a.vpos + 8 <= b.vpos
    ensures ReadableText([a, b]) == a.content + "\n" + Repeat('\n', ExtraNewlines(a.vpos, b.vpos)) + b.content + "\n"
  {
    LayoutTwoLines(a, b);
    RenderTwo(a, b);
  }

  lemma LayoutTwoLines(a: SpatialElement, b: SpatialElement)
    requires a.vpos + 8 <= b.vpos
    ensures Layout([a, b]) == [[a], [b]]
  {
    SortByPair(a, b, VposOf);
    GroupPair(a, b);
    assert SortBy([a], HposOf) == [a] && SortBy([b], HposOf) == [b];
  }

  lemma RenderTwo(a: SpatialElement, b: SpatialElement)
    ensures Render([[a], [b]]) == a.content + "\n" + Repeat('\n', ExtraNewlines(a.vpos, b.vpos)) + b.content + "\n"
  {
    assert LineText([a]) == a.content;
    assert LineText([b]) == b.content;
    assert [[a], [b]][..1] == [[a]];
    RenderOne([a]);
  }

  /** Two words less than 8 apart in VPOS share a line, ordered by HPOS
      whatever their order in VPOS. */
  lemma OneLine(x: SpatialElement, y: SpatialElement)
    requires x.vpos <= y.vpos < x.vpos + 8 && y.hpos < x.hpos && y.content != []
    ensures ReadableText([x, y]) == y.content + Repeat(' ', SeparatorWidth(y.hpos + y.width, x.hpos)) + x.content + "\n"
  {
    LayoutOneLine(x, y);
    RenderOne([y, x]);
    LineTextPair(y, x);
  }

  lemma LayoutOneLine(x: SpatialElement, y: SpatialElement)
    requires x.vpos <= y.vpos < x.vpos + 8 && y.hpos < x.hpos
    ensures Layout([x, y]) == [[y, x]]
  {
    SortByPair(x, y, VposOf);
    GroupPair(x, y);
    SortByPair(x, y, HposOf);
  }

  lemma LineTextPair(a: SpatialElement, b: SpatialElement)
    requires a.content != []
    ensures LineText([a, b]) == a.content + Repeat(' ', SeparatorWidth(a.hpos + a.width, b.hpos)) + b.content
  {
    assert [a, b][..1] == [a] && [a][..0] == [];
    assert LineText([a]) == a.content;
  }

  /** A single line is written with no blank line before it. */
  lemma RenderOne(line: seq<SpatialElement>)
    requires line != []
    ensures Render([line]) == LineText(line) + "\n"
  {
    assert [line][..0] == [];
    assert Repeat('\n', 0) == "";
  }

  /** The gap of 32 between a word ending at 8 and one starting at 40 becomes
      four spaces. */
  lemma SameLineSpacing(x: SpatialElement, y: SpatialElement)
    requires x == SpatialElement("B", 40, 0, 8, 10) && y.content == "A" && y.hpos == 0 && y.vpos == 5 && y.width == 8
    ensures ReadableText([x, y]) == "A" + "    " + "B" + "\n"
  {
    OneLine(x, y);
    assert SeparatorWidth(8, 40) == 4;
    assert Repeat(' ', 4) == "    ";
  }
}
