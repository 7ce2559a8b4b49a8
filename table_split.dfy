/** The split `render_hybrid_smart` makes before drawing: short numeric,
    currency and "N/A" elements are drawn where the page put them, everything
    else goes through line reconstruction and is drawn as one text block. */
module TableSplit {
  import opened Geometry
  import opened Text
  import opened Reconstruct

  /** `char::is_numeric`, restricted to the ASCII digits. */
  predicate IsNumeric(c: char) {
    '0' <= c <= '9'
  }

  predicate NumberLike(c: char) {
    IsNumeric(c) || c == '.' || c == '%'
  }

  /** The table test on an element's content: at most 8 bytes once trimmed,
      and a `'$'` in it, only digits, dots and percent signs, exactly "N/A",
      or only digits. */
  predicate IsTableContent(content: string) {
    var t := Trim(content);
    Utf8Len(t) <= 8 && ('$' in t || AllNumberLike(t) || t == "N/A" || AllNumeric(t))
  }

  /** `t.chars().all(|c| c.is_numeric() || c == '.' || c == '%')`. */
  predicate AllNumberLike(t: string) {
    t == [] || (NumberLike(t[0]) && AllNumberLike(t[1..]))
  }

  /** `t.chars().all(|c| c.is_numeric())`. */
  predicate AllNumeric(t: string) {
    t == [] || (IsNumeric(t[0]) && AllNumeric(t[1..]))
  }

  predicate IsTable(e: SpatialElement) {
    IsTableContent(e.content)
  }

  /** The elements that pass `p` and those that fail it, each in input order. */
  function Partition<T>(s: seq<T>, p: T -> bool): (r: (seq<T>, seq<T>))
    ensures forall i :: 0 <= i < |r.0| ==> p(r.0[i])
    ensures forall i :: 0 <= i < |r.1| ==> !p(r.1[i])
  {
    if s == [] then ([], [])
    else
      var init := s[..|s| - 1];
      var x := s[|s| - 1];
      var rest := Partition(init, p);
      if p(x) then (rest.0 + [x], rest.1) else (rest.0, rest.1 + [x])
  }

  /** The split is made element by element, so it keeps the input order
      within each list. */
  lemma {:induction false} PartitionAppend<T>(a: seq<T>, b: seq<T>, p: T -> bool)
    ensures Partition(a + b, p).0 == Partition(a, p).0 + Partition(b, p).0
    ensures Partition(a + b, p).1 == Partition(a, p).1 + Partition(b, p).1
  {
    if b == [] {
      assert a + b == a;
    } else {
      var init, x := b[..|b| - 1], b[|b| - 1];
      assert (a + b)[..|a + b| - 1] == a + init;
      assert (a + b)[|a + b| - 1] == x;
      PartitionAppend(a, init, p);
      var pa, ra, rb := Partition(a, p), Partition(a + init, p), Partition(init, p);
      if p(x) {
        assert Partition(a + b, p) == (ra.0 + [x], ra.1);
        assert Partition(b, p) == (rb.0 + [x], rb.1);
        assert ra.0 + [x] == pa.0 + (rb.0 + [x]);
      } else {
        assert Partition(a + b, p) == (ra.0, ra.1 + [x]);
        assert Partition(b, p) == (rb.0, rb.1 + [x]);
        assert ra.1 + [x] == pa.1 + (rb.1 + [x]);
      }
    }
  }

  /** Every element lands in one of the two lists, as often as it occurs. */
  lemma {:induction false} PartitionPermutes<T>(s: seq<T>, p: T -> bool)
    ensures multiset(Partition(s, p).0) + multiset(Partition(s, p).1) == multiset(s)
  {
    if s != [] {
      var init, x := s[..|s| - 1], s[|s| - 1];
      assert s == init + [x];
      PartitionPermutes(init, p);
    }
  }

  /** The two lists the loop fills: the table elements and the paragraph ones. */
  function Split(es: seq<SpatialElement>): (seq<SpatialElement>, seq<SpatialElement>) {
    Partition(es, IsTable)
  }

  /** Each element lands in exactly one list: the table one exactly when
      its content passes the table test. */
  lemma SplitOne(e: SpatialElement)
    ensures IsTableContent(e.content) ==> Split([e]) == ([e], [])
    ensures !IsTableContent(e.content) ==> Split([e]) == ([], [e])
  {
    var s := [e];
    assert s[..|s| - 1] == [] && s[|s| - 1] == e;
    var none: seq<SpatialElement> := [];
    assert Partition(none, IsTable) == (none, none);
    assert none + [e] == [e];
  }

  /** Content longer than 8 bytes after trimming is never a table cell. */
  lemma LongIsParagraph(e: SpatialElement)
    requires Utf8Len(Trim(e.content)) > 8
    ensures Split([e]) == ([], [e])
  {
    SplitOne(e);
  }

  /** The loop over `spatial_elements` that fills the two lists. */
  method SplitTableElements(es: seq<SpatialElement>) returns (table: seq<SpatialElement>, para: seq<SpatialElement>)
    ensures (table, para) == Split(es)
  {
    table, para := [], [];
    var i := 0;
    while i < |es|
      invariant i <= |es|
      invariant (table, para) == Split(es[..i])
    {
      var e := es[i];
      assert es[..i + 1][..i] == es[..i] && es[..i + 1][i] == e;
      if IsTable(e) {
        table := table + [e];
      } else {
        para := para + [e];
      }
      i := i + 1;
    }
    assert es[..|es|] == es;
  }

  /** One `painter.text` call: the text and its top-left anchor. */
  datatype TextDraw = TextDraw(at: Point, text: string)

  /** Each table element drawn at its page position. */
  function TableDraws(table: seq<SpatialElement>): (ds: seq<TextDraw>) {
    seq(|table|, i requires 0 <= i < |table| => DrawAt(table[i]))
  }

  function DrawAt(e: SpatialElement): TextDraw {
    TextDraw(Point(e.hpos, e.vpos), e.content)
  }

  /** What `render_hybrid_smart` draws: every table element at its own
      position, then the reconstructed paragraph text at (50, 50). */
  function HybridDraws(es: seq<SpatialElement>): seq<TextDraw> {
    var (table, para) := Split(es);
    TableDraws(table) + [TextDraw(Point(50, 50), ReadableText(para))]
  }

  method RenderHybridSmart(es: seq<SpatialElement>) returns (draws: seq<TextDraw>)
    ensures draws == HybridDraws(es)
  {
    var table, para := SplitTableElements(es);
    draws := DrawTable(table);
    var readable := GenerateReadableText(para);
    draws := draws + [TextDraw(Point(50, 50), readable)];
  }

  /** The loop drawing the table elements at their page positions. */
  method DrawTable(table: seq<SpatialElement>) returns (draws: seq<TextDraw>)
    ensures draws == TableDraws(table)
  {
    draws := [];
    var i := 0;
    while i < |table|
      invariant i <= |table| && |draws| == i
      invariant forall j :: 0 <= j < i ==> draws[j] == DrawAt(table[j])
    {
      var e := table[i];
      draws := draws + [TextDraw(Point(e.hpos, e.vpos), e.content)];
      i := i + 1;
    }
  }

  /** Nothing is lost: every element is either drawn alone at its position
      or placed in a line of the paragraph text. */
  lemma HybridCoversAll(es: seq<SpatialElement>)
    ensures multiset(Split(es).0) + multiset(Flatten(Layout(Split(es).1))) == multiset(es)
  {
    PartitionPermutes(es, IsTable);
    LayoutPartition(Split(es).1);
  }

  /** When every content is one word, the paragraph text holds exactly the
      words of the paragraph elements, line by line. */
  lemma HybridWords(es: seq<SpatialElement>)
    requires forall i :: 0 <= i < |es| ==> IsWord(es[i].content)
    ensures Words(HybridDraws(es)[|Split(es).0|].text) == Contents(Flatten(Layout(Split(es).1)))
  {
    var (table, para) := Split(es);
    PartitionPermutes(es, IsTable);
    forall i | 0 <= i < |para| ensures IsWord(para[i].content) {
      assert para[i] in multiset(es);
    }
    ReadableWords(para);
  }

  /** Content that is already trimmed is judged as it stands. */
  lemma TrimmedContent(c: string)
    requires c != [] && !IsWhitespace(c[0]) && !IsWhitespace(c[|c| - 1])
    requires forall i :: 0 <= i < |c| ==> c[i] as int < 0x80
    ensures Trim(c) == c && Utf8Len(c) == |c|
  {
    assert TrimStart(c) == c && TrimEnd(c) == c;
    Utf8LenAscii(c);
  }

  /** A currency amount is a table cell. */
  lemma CurrencyIsTable(c: string)
    requires c == "$5"
    ensures IsTableContent(c)
  {
    TrimmedContent(c);
    assert c[0] == '$';
  }

  /** A percentage is a table cell. */
  lemma PercentIsTable(c: string)
    requires c == "12.5%"
    ensures IsTableContent(c)
  {
    TrimmedContent(c);
    assert AllNumberLike("12.5%");
  }

  /** "N/A" is a table cell. */
  lemma NotApplicableIsTable(c: string)
    requires c == "N/A"
    ensures IsTableContent(c)
  {
    TrimmedContent(c);
  }

  /** A blank element is a table cell: every character of its empty trimmed
      content is vacuously numeric. */
  lemma BlankIsTable(c: string)
    requires IsBlank(c)
    ensures IsTableContent(c)
  {
    TrimBlank(c);
  }

  /** A word is paragraph text. */
  lemma WordIsParagraph(c: string)
    requires c == "Revenue"
    ensures !IsTableContent(c)
  {
    TrimmedContent(c);
    assert !NumberLike(c[0]) && !IsNumeric(c[0]);
  }

  /** A nine-digit number is too long for a table cell. */
  lemma LongNumberIsParagraph(c: string)
    requires c == "123456789"
    ensures !IsTableContent(c)
  {
    TrimmedContent(c);
  }
}
