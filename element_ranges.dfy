/** The bookkeeping that ties stretches of the unified text (the rope) to
    the ALTO elements they came from (`ElementRange`), and how insertions
    and deletions move that bookkeeping. Positions count characters. */
module ElementRanges {
  import opened Basics
  import opened Geometry
  import opened Text
  import opened SpatialIndex

  /** `[ropeStart, ropeEnd)` is the element's stretch of the rope. */
  datatype ElementRange = ElementRange(
    ropeStart: nat,
    ropeEnd: nat,
    elementId: nat,
    visualBounds: Rect,
    originalBounds: Rect,
    overflow: bool,
    modified: bool)

  /** The ranges lie in rope order inside a rope of `len` characters, each
      ending no later than any later one starts. */
  predicate RangesValid(rs: seq<ElementRange>, len: nat) {
    InsideRope(rs, len)
    && (forall i, j :: 0 <= i < j < |rs| ==> rs[i].ropeEnd <= rs[j].ropeStart)
  }

  /** Every range is a well-formed span of a rope of length `len`. */
  predicate InsideRope(rs: seq<ElementRange>, len: nat) {
    forall i :: 0 <= i < |rs| ==> rs[i].ropeStart <= rs[i].ropeEnd <= len
  }

  /** The boxes the spatial index is built over. */
  function Boxes(rs: seq<ElementRange>): (bs: seq<Rect>)
    ensures |bs| == |rs|
    ensures forall i :: 0 <= i < |rs| ==> bs[i] == rs[i].visualBounds
  {
    seq(|rs|, i requires 0 <= i < |rs| => rs[i].visualBounds)
  }

  // ---------------------------------------------------------------- lookup

  predicate InRange(r: ElementRange, pos: nat) {
    r.ropeStart <= pos < r.ropeEnd
  }

  /** `find_element_containing_position`: the first range whose half-open
      span holds `pos`. */
  function FindContaining(rs: seq<ElementRange>, pos: nat): (r: Option<nat>)
    ensures r.None? <==> forall i :: 0 <= i < |rs| ==> !InRange(rs[i], pos)
    ensures r.Some? ==> r.value < |rs| && InRange(rs[r.value], pos)
                        && forall i :: 0 <= i < r.value ==> !InRange(rs[i], pos)
  {
    if rs == [] then None
    else if InRange(rs[0], pos) then Some(0)
    else
      match FindContaining(rs[1..], pos)
      case None => None
      case Some(k) => Some(k + 1)
  }

  /** Between valid ranges at most one holds a position, so the first one
      found is the only one. */
  lemma ContainingIsUnique(rs: seq<ElementRange>, len: nat, pos: nat, i: nat)
    requires RangesValid(rs, len)
    requires i < |rs| && InRange(rs[i], pos)
    ensures FindContaining(rs, pos) == Some(i)
  {
  }

  /** `text_exceeds_bounds`: eight pixels per UTF-8 byte against the width. */
  predicate Exceeds(text: string, bounds: Rect) {
    8 * Utf8Len(text) > bounds.Width()
  }

  /** For ASCII text the estimate is eight units per character. */
  lemma ExceedsAscii(text: string, bounds: Rect)
    requires forall i :: 0 <= i < |text| ==> text[i] as int < 0x80
    ensures Exceeds(text, bounds) <==> 8 * |text| > bounds.Width()
  {
    Utf8LenAscii(text);
  }

  /** Text that overflows its box still overflows with more text after it,
      and text that fits still fits with text removed from its end. */
  lemma ExceedsGrows(text: string, more: string, bounds: Rect)
    ensures Exceeds(text, bounds) ==> Exceeds(text + more, bounds)
    ensures Utf8Len(text + more) >= Utf8Len(text) + |more|
  {
    Utf8LenAppend(text, more);
  }

  /** The part of `rope_to_screen_position` that is not the zoom/pan
      transform: the document-space anchor of rope position `pos`, on the
      top edge of the element holding it, `width / len` per character and
      5 units of offset compensation (fractions rounded down). */
  function RopeToScreen(rs: seq<ElementRange>, pos: nat): (p: Option<Point>)
    ensures p.Some? <==> exists i :: 0 <= i < |rs| && InRange(rs[i], pos)
    ensures p.Some? ==>
              var e := rs[FindContaining(rs, pos).value];
              var b := e.visualBounds;
              p.value.y == b.minY
              && (b.Width() >= 0 ==> b.minX + 5 <= p.value.x <= b.minX + b.Width() + 5)
              && (b.Width() > 0 ==> p.value.x < b.minX + b.Width() + 5)
  {
    match FindContaining(rs, pos)
    case None => None
    case Some(k) =>
      var e := rs[k];
      var offset := pos - e.ropeStart;
      var len := e.ropeEnd - e.ropeStart;
      var w := e.visualBounds.Width();
      var localX := if len > 0 then offset * w / len + 5 else offset * 8 + 5;
      AnchorWithin(offset, len, w);
      Some(Point(e.visualBounds.minX + localX, e.visualBounds.minY))
  }

  lemma AnchorWithin(offset: nat, len: nat, w: int)
    requires offset < len
    ensures w >= 0 ==> 0 <= offset * w / len <= w
    ensures w > 0 ==> offset * w / len < w
  {
    if w >= 0 {
      assert offset * w <= len * w by {
        MulMono(offset, len, w);
      }
      if w > 0 {
        assert offset * w < len * w by {
          MulStrict(offset, len, w);
        }
      }
    }
  }

  lemma MulMono(a: int, b: int, d: int)
    requires a <= b && d >= 0
    ensures a * d <= b * d
  {
  }

  lemma MulStrict(a: nat, b: nat, w: nat)
    requires a < b && w > 0
    ensures a * w < b * w
  {
  }

  /** The character offset `screen_to_rope_position` derives from a click
      `localX` units right of an element's left edge: the fraction of the
      width times the length, truncated toward zero, saturating at 0 below
      and cut at the length above. A zero width divides to an infinity, or
      to NaN when `localX` is 0 as well, which casts to 0. */
  function ProportionalOffset(localX: int, width: int, len: nat): (off: nat)
    ensures off <= len
  {
    if len == 0 then 0
    else
      var num := if width < 0 then -localX * len else localX * len;
      var den := if width < 0 then -width else width;
      if den == 0 then (if num > 0 then len else 0)
      else if num <= 0 then 0
      else Min(num / den, len)
  }

  /** A click on the left edge lands on the element's first character, one
      on the right edge just after its last, and further right never lands
      earlier. */
  lemma ProportionalOffsetEdges(width: int, len: nat, x1: int, x2: int)
    requires width > 0
    requires x1 <= x2
    ensures ProportionalOffset(0, width, len) == 0
    ensures ProportionalOffset(width, width, len) == len
    ensures ProportionalOffset(x1, width, len) <= ProportionalOffset(x2, width, len)
  {
    if len > 0 {
      assert width * len / width == len by {
        DivCancel(len, width);
      }
      if 0 < x1 {
        DivMonotoneBy(x1 * len, x2 * len, width);
      }
    }
  }

  lemma DivCancel(a: nat, d: nat)
    requires d > 0
    ensures d * a / d == a
  {
    var q := d * a / d;
    var r := d * a % d;
    assert d * a == q * d + r;
    assert (a - q) * d == r;
    if a - q >= 1 {
      MulMono(1, a - q, d);
    } else if a - q <= -1 {
      MulMono(a - q, -1, d);
    }
  }

  lemma DivMonotoneBy(a: int, b: int, d: int)
    requires 0 <= a <= b && d > 0
    ensures a / d <= b / d
  {
    var qa, qb := a / d, b / d;
    assert qa * d + a % d == a;
    assert qb * d + b % d == b;
    if qa > qb {
      MulMono(qb + 1, qa, d);
    }
  }

  /** `screen_to_rope_position` once the click has been brought into document
      space: the rope position inside the element the index finds there. */
  function ScreenToRope(rs: seq<ElementRange>, index: GridIndex, p: Point): (r: Option<nat>)
    requires BuiltFrom(index, Boxes(rs))
    requires forall i :: 0 <= i < |rs| ==> rs[i].ropeStart <= rs[i].ropeEnd
    ensures r.Some? <==> FindElementAt(index, p).Some?
    ensures r.Some? ==>
              var e := rs[FindElementAt(index, p).value];
              e.ropeStart <= r.value <= e.ropeEnd
  {
    FoundIsIndexed(Boxes(rs), index, p);
    match FindElementAt(index, p)
    case None => None
    case Some(k) =>
      var e := rs[k];
      Some(e.ropeStart + ProportionalOffset(p.x - e.visualBounds.minX, e.visualBounds.Width(), e.ropeEnd - e.ropeStart))
  }

  // ------------------------------------------------------------- insertion

  /** The rope after `Rope::insert`. */
  function InsertAt(rope: string, pos: nat, text: string): (r: string)
    requires pos <= |rope|
    ensures |r| == |rope| + |text|
  {
    rope[..pos] + text + rope[pos..]
  }

  /** Where an insertion of `n` characters at `pos` moves a range endpoint. */
  function ShiftPoint(x: nat, pos: nat, n: nat): nat {
    if x > pos then x + n else x
  }

  /** The first pass of `insert_text` on one range: ranges after the point
      move, a range holding the point grows and is flagged for a width check. */
  function InsertStep(r: ElementRange, pos: nat, n: nat): ElementRange {
    if r.ropeStart > pos then r.(ropeStart := r.ropeStart + n, ropeEnd := r.ropeEnd + n)
    else if r.ropeEnd > pos then r.(ropeEnd := r.ropeEnd + n, modified := true, overflow := true)
    else r
  }

  /** What the first pass does to one range: endpoints move by `ShiftPoint`,
      the range holding the insertion point is flagged, nothing else changes. */
  lemma InsertStepEffect(r: ElementRange, pos: nat, n: nat)
    requires r.ropeStart <= r.ropeEnd
    ensures InsertStep(r, pos, n).ropeStart == ShiftPoint(r.ropeStart, pos, n)
    ensures InsertStep(r, pos, n).ropeEnd == ShiftPoint(r.ropeEnd, pos, n)
    ensures InsertStep(r, pos, n).modified == (r.modified || InRange(r, pos))
    ensures InsertStep(r, pos, n).overflow == (r.overflow || InRange(r, pos))
    ensures InsertStep(r, pos, n).(ropeStart := r.ropeStart, ropeEnd := r.ropeEnd,
                                    modified := r.modified, overflow := r.overflow) == r
  {
  }

  function ShiftAll(rs: seq<ElementRange>, pos: nat, n: nat): (out: seq<ElementRange>)
    ensures |out| == |rs|
    ensures forall i :: 0 <= i < |rs| ==> out[i] == InsertStep(rs[i], pos, n)
  {
    seq(|rs|, i requires 0 <= i < |rs| => InsertStep(rs[i], pos, n))
  }

  /** The width re-check of one range in the later passes of `insert_text`:
      a range flagged both modified and overflowing gets its overflow flag
      from its current text measured against its original bounds. */
  function Recheck(r: ElementRange, rope: string): ElementRange
    requires r.ropeStart <= r.ropeEnd <= |rope|
  {
    if r.modified && r.overflow then r.(overflow := Exceeds(rope[r.ropeStart..r.ropeEnd], r.originalBounds))
    else r
  }

  /** The `(index, exceeds)` list the second pass of `insert_text` collects
      over the first `k` ranges. */
  function OverflowChecks(rs: seq<ElementRange>, rope: string, k: nat): (cs: seq<(nat, bool)>)
    requires k <= |rs| && InsideRope(rs, |rope|)
    ensures forall j :: 0 <= j < |cs| ==> cs[j].0 < k
  {
    if k == 0 then []
    else
      var r := rs[k - 1];
      OverflowChecks(rs, rope, k - 1)
      + (if r.modified && r.overflow then [(k - 1, Exceeds(rope[r.ropeStart..r.ropeEnd], r.originalBounds))] else [])
  }

  /** The third pass of `insert_text`: store each collected result. */
  function ApplyChecks(rs: seq<ElementRange>, cs: seq<(nat, bool)>): (out: seq<ElementRange>)
    ensures |out| == |rs|
  {
    if cs == [] then rs
    else
      var out := ApplyChecks(rs, cs[..|cs| - 1]);
      var c := cs[|cs| - 1];
      if c.0 < |out| then out[c.0 := out[c.0].(overflow := c.1)] else out
  }

  /** Collecting the checks and then applying them re-checks exactly the
      ranges seen so far. */
  lemma ChecksRecheck(rs: seq<ElementRange>, rope: string, k: nat)
    requires k <= |rs| && InsideRope(rs, |rope|)
    ensures forall j :: 0 <= j < |rs| ==>
              ApplyChecks(rs, OverflowChecks(rs, rope, k))[j] == if j < k then Recheck(rs[j], rope) else rs[j]
  {
    forall j | 0 <= j < |rs|
      ensures ApplyChecks(rs, OverflowChecks(rs, rope, k))[j] == if j < k then Recheck(rs[j], rope) else rs[j]
    {
      ChecksRecheckAt(rs, rope, k, j);
    }
  }

  lemma {:induction false} ChecksRecheckAt(rs: seq<ElementRange>, rope: string, k: nat, j: nat)
    requires k <= |rs| && InsideRope(rs, |rope|) && j < |rs|
    ensures ApplyChecks(rs, OverflowChecks(rs, rope, k))[j] == if j < k then Recheck(rs[j], rope) else rs[j]
  {
    if k > 0 {
      ChecksRecheckAt(rs, rope, k - 1, j);
      RecheckStep(rs, rope, OverflowChecks(rs, rope, k - 1), k, j);
    }
  }

  /** One more round of the second pass, followed by the third pass,
      re-checks range `k - 1` too. */
  lemma RecheckStep(rs: seq<ElementRange>, rope: string, prev: seq<(nat, bool)>, k: nat, j: nat)
    requires 0 < k <= |rs| && InsideRope(rs, |rope|) && j < |rs|
    requires ApplyChecks(rs, prev)[j] == if j < k - 1 then Recheck(rs[j], rope) else rs[j]
    ensures var r := rs[k - 1];
            var extra := if r.modified && r.overflow
                         then [(k - 1, Exceeds(rope[r.ropeStart..r.ropeEnd], r.originalBounds))] else [];
            ApplyChecks(rs, prev + extra)[j] == if j < k then Recheck(rs[j], rope) else rs[j]
  {
    var r := rs[k - 1];
    if r.modified && r.overflow {
      var c := (k - 1, Exceeds(rope[r.ropeStart..r.ropeEnd], r.originalBounds));
      ApplyChecksSnoc(rs, prev, c);
      var before, after := ApplyChecks(rs, prev), ApplyChecks(rs, prev + [c]);
      if j == k - 1 {
        assert before[j] == r;
        assert after[j] == r.(overflow := c.1) == Recheck(r, rope);
      } else {
        assert after[j] == before[j];
      }
    } else {
      assert prev + [] == prev;
      if j == k - 1 {
        assert Recheck(r, rope) == r;
      }
    }
  }

  /** Applying one more check stores its result in the range it names. */
  lemma ApplyChecksSnoc(rs: seq<ElementRange>, cs: seq<(nat, bool)>, c: (nat, bool))
    requires c.0 < |rs|
    ensures var before := ApplyChecks(rs, cs);
            ApplyChecks(rs, cs + [c]) == before[c.0 := before[c.0].(overflow := c.1)]
  {
    var cs' := cs + [c];
    assert cs'[..|cs'| - 1] == cs && cs'[|cs'| - 1] == c;
  }

  /** The ranges after `insert_text(pos, text)`, given the rope after the insertion. */
  function InsertedRanges(rs: seq<ElementRange>, rope: string, pos: nat, n: nat): (out: seq<ElementRange>)
    requires RangesValid(ShiftAll(rs, pos, n), |rope|)
    ensures |out| == |rs|
  {
    var shifted := ShiftAll(rs, pos, n);
    ApplyChecks(shifted, OverflowChecks(shifted, rope, |shifted|))
  }

  /** `insert_text` keeps the ranges valid, keeps every element's identity and
      bounds, and each range's overflow flag ends as the re-check says. */
  lemma InsertKeepsValid(rs: seq<ElementRange>, rope: string, pos: nat, text: string)
    requires RangesValid(rs, |rope|) && pos <= |rope|
    ensures RangesValid(ShiftAll(rs, pos, |text|), |InsertAt(rope, pos, text)|)
    ensures forall i :: 0 <= i < |rs| ==>
              var r := InsertedRanges(rs, InsertAt(rope, pos, text), pos, |text|)[i];
              r == Recheck(InsertStep(rs[i], pos, |text|), InsertAt(rope, pos, text))
              && r.elementId == rs[i].elementId
              && r.visualBounds == rs[i].visualBounds && r.originalBounds == rs[i].originalBounds
              && r.ropeStart == ShiftPoint(rs[i].ropeStart, pos, |text|)
              && r.ropeEnd == ShiftPoint(rs[i].ropeEnd, pos, |text|)
              && r.modified == (rs[i].modified || InRange(rs[i], pos))
    ensures RangesValid(InsertedRanges(rs, InsertAt(rope, pos, text), pos, |text|), |InsertAt(rope, pos, text)|)
  {
    var n := |text|;
    var rope' := InsertAt(rope, pos, text);
    var shifted := ShiftAll(rs, pos, n);
    forall i | 0 <= i < |rs|
      ensures shifted[i].ropeStart <= shifted[i].ropeEnd <= |rope'|
    {
      InsertStepEffect(rs[i], pos, n);
    }
    forall i, j | 0 <= i < j < |rs|
      ensures shifted[i].ropeEnd <= shifted[j].ropeStart
    {
      InsertStepEffect(rs[i], pos, n);
      InsertStepEffect(rs[j], pos, n);
    }
    ChecksRecheck(shifted, rope', |shifted|);
    forall i | 0 <= i < |rs| ensures InsertStep(rs[i], pos, n).modified == (rs[i].modified || InRange(rs[i], pos)) {
      InsertStepEffect(rs[i], pos, n);
    }
    var out := InsertedRanges(rs, rope', pos, n);
    forall i | 0 <= i < |rs|
      ensures out[i].ropeStart == shifted[i].ropeStart && out[i].ropeEnd == shifted[i].ropeEnd
    {
    }
  }

  /** Every range still reads the text it read before; the one holding the
      insertion point reads it with the inserted text spliced in. */
  lemma InsertKeepsText(rope: string, pos: nat, text: string, a: nat, b: nat)
    requires pos <= |rope| && a <= b <= |rope|
    ensures ShiftPoint(a, pos, |text|) <= ShiftPoint(b, pos, |text|) <= |InsertAt(rope, pos, text)|
    ensures InsertAt(rope, pos, text)[ShiftPoint(a, pos, |text|)..ShiftPoint(b, pos, |text|)]
            == if a <= pos < b then rope[a..pos] + text + rope[pos..b] else rope[a..b]
  {
    var r := InsertAt(rope, pos, text);
    var n := |text|;
    if a > pos {
      assert r[a + n..b + n] == rope[a..b] by {
        assert r[pos + n..] == rope[pos..];
        assert rope[a..b] == rope[pos..][a - pos..b - pos];
        assert r[a + n..b + n] == r[pos + n..][a - pos..b - pos];
      }
    } else if b <= pos {
      assert r[..pos] == rope[..pos];
      assert r[a..b] == r[..pos][a..b];
      assert rope[a..b] == rope[..pos][a..b];
    } else {
      assert r[a..b + n] == rope[a..pos] + text + rope[pos..b] by {
        assert r[a..b + n] == r[a..pos] + r[pos..pos + n] + r[pos + n..b + n];
        assert r[..pos] == rope[..pos];
        assert r[a..pos] == r[..pos][a..];
        assert rope[a..pos] == rope[..pos][a..];
        assert r[pos..pos + n] == text;
        assert r[pos + n..] == rope[pos..];
        assert r[pos + n..b + n] == r[pos + n..][..b - pos];
        assert rope[pos..b] == rope[pos..][..b - pos];
      }
    }
  }

  /** After an insertion, a range is flagged overflowing only when its text
      is too wide for its original bounds, and the range that took the text
      is flagged exactly when it is too wide, provided every overflowing
      range was already marked modified. */
  lemma InsertOverflowSound(rs: seq<ElementRange>, rope: string, pos: nat, text: string, i: nat)
    requires RangesValid(rs, |rope|) && pos <= |rope| && i < |rs|
    requires rs[i].overflow ==> rs[i].modified
    ensures RangesValid(ShiftAll(rs, pos, |text|), |InsertAt(rope, pos, text)|)
    ensures
      var rope' := InsertAt(rope, pos, text);
      var r := InsertedRanges(rs, rope', pos, |text|)[i];
      r.ropeStart <= r.ropeEnd <= |rope'|
      && (r.overflow ==> r.modified && Exceeds(rope'[r.ropeStart..r.ropeEnd], r.originalBounds))
      && (InRange(rs[i], pos) ==> r.overflow == Exceeds(rope'[r.ropeStart..r.ropeEnd], r.originalBounds))
  {
    InsertKeepsValid(rs, rope, pos, text);
    InsertStepEffect(rs[i], pos, |text|);
  }

  /** Inserting "X" at 0 into "ab", held by one range over [0, 2): the range
      starts at the insertion point, so it grows to [0, 3) rather than moving. */
  lemma InsertAtRangeStartGrows(r: ElementRange, rope: string, text: string)
    requires r == ElementRange(0, 2, 0, Rect(0, 0, 100, 10), Rect(0, 0, 100, 10), false, false)
    requires rope == "ab" && text == "X"
    ensures
      var out := InsertedRanges([r], InsertAt(rope, 0, text), 0, |text|);
      out[0].ropeStart == 0 && out[0].ropeEnd == 3 && out[0].modified && !out[0].overflow
  {
    InsertKeepsValid([r], rope, 0, text);
    var rope' := InsertAt(rope, 0, text);
    assert InsertStep(r, 0, 1) == r.(ropeEnd := 3, modified := true, overflow := true);
    assert rope'[0..3] == rope';
    Utf8LenAscii(rope');
  }

  /** Inserting "X" at 1 into "ab" with ranges [0, 1) and [1, 2): the
      insertion point ends the first range, so the text lands in the second. */
  lemma InsertAtRangeEndGoesToNext(r0: ElementRange, r1: ElementRange, rope: string, text: string)
    requires r0 == ElementRange(0, 1, 0, Rect(0, 0, 8, 10), Rect(0, 0, 8, 10), false, false)
    requires r1 == ElementRange(1, 2, 1, Rect(8, 0, 16, 10), Rect(8, 0, 16, 10), false, false)
    requires rope == "ab" && text == "X"
    ensures
      var out := InsertedRanges([r0, r1], InsertAt(rope, 1, text), 1, |text|);
      out[0] == r0 && out[1].ropeStart == 1 && out[1].ropeEnd == 3 && out[1].modified && out[1].overflow
  {
    InsertKeepsValid([r0, r1], rope, 1, text);
    var rope' := InsertAt(rope, 1, text);
    assert InsertStep(r0, 1, 1) == r0;
    assert InsertStep(r1, 1, 1) == r1.(ropeEnd := 3, modified := true, overflow := true);
    var slice := rope'[1..3];
    assert |slice| == 2;
    Utf8LenAscii(slice);
  }

  // -------------------------------------------------------------- deletion

  /** The rope after `Rope::remove(start..end)`. */
  function RemoveRange(rope: string, start: nat, end: nat): (r: string)
    requires start <= end <= |rope|
    ensures |r| == |rope| - (end - start)
  {
    rope[..start] + rope[end..]
  }

  /** Where deleting `[start, end)` moves a range endpoint: points inside the
      deleted span collapse onto `start`, later points move back. */
  function CollapsePoint(x: nat, start: nat, end: nat): nat
    requires start <= end
  {
    if x <= start then x else if x <= end then start else x - (end - start)
  }

  /** The loop body of `delete_range` on one range. */
  function DeleteStep(r: ElementRange, start: nat, end: nat): ElementRange
    requires start <= end && r.ropeStart <= r.ropeEnd
  {
    if r.ropeStart > end then
      r.(ropeStart := r.ropeStart - (end - start), ropeEnd := r.ropeEnd - (end - start))
    else if r.ropeEnd > start then
      r.(ropeStart := if r.ropeStart >= start then start else r.ropeStart,
         ropeEnd := if r.ropeEnd > end then r.ropeEnd - (end - start) else start,
         modified := true)
    else r
  }

  /** What the loop does to one range: endpoints move by `CollapsePoint`; a
      range reaching past `start` and starting no later than `end` is marked
      modified; nothing else changes. */
  lemma DeleteStepEffect(r: ElementRange, start: nat, end: nat)
    requires start <= end && r.ropeStart <= r.ropeEnd
    ensures DeleteStep(r, start, end).ropeStart == CollapsePoint(r.ropeStart, start, end)
    ensures DeleteStep(r, start, end).ropeEnd == CollapsePoint(r.ropeEnd, start, end)
    ensures DeleteStep(r, start, end).modified == (r.modified || (r.ropeStart <= end && r.ropeEnd > start))
    ensures DeleteStep(r, start, end).(ropeStart := r.ropeStart, ropeEnd := r.ropeEnd, modified := r.modified) == r
  {
  }

  /** The ranges after `delete_range(start, end)`. */
  function DeletedRanges(rs: seq<ElementRange>, start: nat, end: nat): (out: seq<ElementRange>)
    requires start <= end
    requires forall i :: 0 <= i < |rs| ==> rs[i].ropeStart <= rs[i].ropeEnd
    ensures |out| == |rs|
    ensures forall i :: 0 <= i < |rs| ==> out[i] == DeleteStep(rs[i], start, end)
  {
    seq(|rs|, i requires 0 <= i < |rs| => DeleteStep(rs[i], start, end))
  }

  /** `delete_range` keeps the ranges valid inside the shorter rope and keeps
      every element's identity, bounds and overflow flag. */
  lemma DeleteKeepsValid(rs: seq<ElementRange>, len: nat, start: nat, end: nat)
    requires RangesValid(rs, len) && start <= end <= len
    ensures RangesValid(DeletedRanges(rs, start, end), len - (end - start))
    ensures forall i :: 0 <= i < |rs| ==>
              var r := DeletedRanges(rs, start, end)[i];
              r.elementId == rs[i].elementId && r.overflow == rs[i].overflow
              && r.visualBounds == rs[i].visualBounds && r.originalBounds == rs[i].originalBounds
              && r.ropeStart == CollapsePoint(rs[i].ropeStart, start, end)
              && r.ropeEnd == CollapsePoint(rs[i].ropeEnd, start, end)
              && r.modified == (rs[i].modified || (rs[i].ropeStart <= end && rs[i].ropeEnd > start))
  {
    var out := DeletedRanges(rs, start, end);
    forall i | 0 <= i < |rs|
      ensures out[i].ropeStart <= out[i].ropeEnd <= len - (end - start)
    {
      DeleteStepEffect(rs[i], start, end);
    }
    forall i, j | 0 <= i < j < |rs|
      ensures out[i].ropeEnd <= out[j].ropeStart
    {
      DeleteStepEffect(rs[i], start, end);
      DeleteStepEffect(rs[j], start, end);
    }
    forall i | 0 <= i < |rs|
      ensures out[i].modified == (rs[i].modified || (rs[i].ropeStart <= end && rs[i].ropeEnd > start))
    {
      DeleteStepEffect(rs[i], start, end);
    }
  }

  /** Every range reads what it read before minus the deleted characters. */
  lemma DeleteKeepsText(rope: string, start: nat, end: nat, a: nat, b: nat)
    requires start <= end <= |rope| && a <= b <= |rope|
    ensures CollapsePoint(a, start, end) <= CollapsePoint(b, start, end) <= |RemoveRange(rope, start, end)|
    ensures RemoveRange(rope, start, end)[CollapsePoint(a, start, end)..CollapsePoint(b, start, end)]
            == rope[a..Max(a, Min(b, start))] + rope[Min(b, Max(a, end))..b]
  {
    var r := RemoveRange(rope, start, end);
    var d := end - start;
    if b <= start {
      KeptBefore(rope, start, end, a, b);
    } else if a >= end {
      KeptAfter(rope, start, end, a, b);
    } else if a <= start {
      KeptBefore(rope, start, end, a, start);
      if b <= end {
      } else {
        KeptAfter(rope, start, end, end, b);
        assert r[a..b - d] == r[a..start] + r[start..b - d];
      }
    } else if b > end {
      KeptAfter(rope, start, end, end, b);
    }
  }

  lemma KeptBefore(rope: string, start: nat, end: nat, a: nat, b: nat)
    requires start <= end <= |rope| && a <= b <= start
    ensures RemoveRange(rope, start, end)[a..b] == rope[a..b]
  {
    var r := RemoveRange(rope, start, end);
    assert r[..start] == rope[..start];
    assert r[a..b] == r[..start][a..b];
    assert rope[a..b] == rope[..start][a..b];
  }

  lemma KeptAfter(rope: string, start: nat, end: nat, a: nat, b: nat)
    requires start <= end <= a <= b <= |rope|
    ensures RemoveRange(rope, start, end)[a - (end - start)..b - (end - start)] == rope[a..b]
  {
    var r := RemoveRange(rope, start, end);
    var d := end - start;
    assert r[start..] == rope[end..];
    assert r[a - d..b - d] == r[start..][a - end..b - end];
    assert rope[a..b] == rope[end..][a - end..b - end];
  }

  /** Deleting [1, 3) from "Xab" whose one range is [1, 3): the range
      collapses to [1, 1), is marked modified and the rope reads "X". */
  lemma DeleteWholeRange()
    ensures
      var r := ElementRange(1, 3, 0, Rect(0, 0, 100, 10), Rect(0, 0, 100, 10), false, false);
      RemoveRange("Xab", 1, 3) == "X"
      && DeletedRanges([r], 1, 3)[0] == r.(ropeStart := 1, ropeEnd := 1, modified := true)
  {
  }

  /** A range that starts exactly where the deleted span ends loses no text
      but is still marked modified. */
  lemma DeleteMarksFollowingRange()
    ensures
      var r := ElementRange(3, 5, 1, Rect(0, 0, 100, 10), Rect(0, 0, 100, 10), false, false);
      var out := DeletedRanges([r], 1, 3)[0];
      out.ropeStart == 1 && out.ropeEnd == 3 && out.modified
      && RemoveRange("abcde", 1, 3)[out.ropeStart..out.ropeEnd] == "abcde"[3..5]
  {
  }

  // ------------------------------------------------------ initial layout

  /** Whether `from_alto_elements` opens a new line before element `i`: its
      VPOS differs by more than 5 from the VPOS of the element that opened
      the current line. */
  predicate NewlineBefore(es: seq<SpatialElement>, i: nat)
    requires i < |es|
    decreases i, 0
  {
    i > 0 && Abs(es[i].vpos - LineVpos(es, i - 1)) > 5
  }

  /** `current_line_vpos` once element `i` is placed. */
  function LineVpos(es: seq<SpatialElement>, i: nat): int
    requires i < |es|
    decreases i, 1
  {
    if i == 0 || NewlineBefore(es, i) then es[i].vpos else LineVpos(es, i - 1)
  }

  /** A space follows element `i` when the next element's VPOS is within 5
      of this element's own VPOS. */
  predicate SpaceAfter(es: seq<SpatialElement>, i: nat)
    requires i < |es|
  {
    i + 1 < |es| && Abs(es[i + 1].vpos - es[i].vpos) <= 5
  }

  /** The characters element `i` contributes to the rope, in order. */
  function Piece(es: seq<SpatialElement>, i: nat): string
    requires i < |es|
  {
    (if NewlineBefore(es, i) then "\n" else "") + es[i].content + (if SpaceAfter(es, i) then " " else "")
  }

  /** The pieces of all elements, in element order. */
  function Pieces(es: seq<SpatialElement>): (ps: seq<string>)
    ensures |ps| == |es|
  {
    seq(|es|, i requires 0 <= i < |es| => Piece(es, i))
  }

  /** The first `k` pieces run together: the rope text `from_alto_elements`
      has built after its first `k` elements. */
  function Concat(ps: seq<string>, k: nat): string
    requires k <= |ps|
  {
    if k == 0 then "" else Concat(ps, k - 1) + ps[k - 1]
  }

  /** The rope text of a freshly built buffer. */
  function LayoutText(es: seq<SpatialElement>): string {
    Concat(Pieces(es), |es|)
  }

  /** The ranges recorded while running pieces together: range `i` runs from
      the end of the text built before piece `i` to the end of the text built
      with it, and carries element `i`'s index and bounds. The ranges tile the
      text: the first starts at 0, each ends where the next starts, the last
      ends with the text. */
  function RangesOver(ps: seq<string>, es: seq<SpatialElement>): (rs: seq<ElementRange>)
    requires |ps| == |es|
    ensures |rs| == |es|
    ensures |es| > 0 ==> rs[0].ropeStart == 0 && rs[|es| - 1].ropeEnd == |Concat(ps, |ps|)|
    ensures forall i, j :: 0 <= i && j == i + 1 && j < |es| ==> rs[i].ropeEnd == rs[j].ropeStart
    ensures forall i :: 0 <= i < |es| ==>
              rs[i].elementId == i && rs[i].visualBounds == es[i].Bounds()
              && rs[i].originalBounds == es[i].Bounds() && !rs[i].overflow && !rs[i].modified
  {
    seq(|es|, i requires 0 <= i < |es| =>
      ElementRange(|Concat(ps, i)|, |Concat(ps, i + 1)|, i, es[i].Bounds(), es[i].Bounds(), false, false))
  }

  /** One step of `from_alto_elements`'s loop, given the current line's
      VPOS: whether it breaks the line, whether it adds a space and the new
      line VPOS. */
  lemma LayoutStep(es: seq<SpatialElement>, i: nat, lineVpos: int)
    requires i < |es| && (i > 0 ==> lineVpos == LineVpos(es, i - 1))
    ensures NewlineBefore(es, i) <==> i > 0 && Abs(es[i].vpos - lineVpos) > 5
    ensures SpaceAfter(es, i) <==> i + 1 < |es| && Abs(es[i + 1].vpos - es[i].vpos) <= 5
    ensures LineVpos(es, i) == if i == 0 || NewlineBefore(es, i) then es[i].vpos else lineVpos
  {
  }

  /** The ranges of a freshly built buffer. */
  function LayoutRanges(es: seq<SpatialElement>): (rs: seq<ElementRange>)
    ensures |rs| == |es|
  {
    RangesOver(Pieces(es), es)
  }

  /** Range `i` of a fresh layout spans piece `i`, right after the text of
      the pieces before it. */
  lemma LayoutRangeAt(es: seq<SpatialElement>, i: nat)
    requires i < |es|
    ensures Concat(Pieces(es), i + 1) == Concat(Pieces(es), i) + Piece(es, i)
    ensures LayoutRanges(es)[i]
            == ElementRange(|Concat(Pieces(es), i)|, |Concat(Pieces(es), i)| + |Piece(es, i)|,
                            i, es[i].Bounds(), es[i].Bounds(), false, false)
  {
  }

  /** Text built earlier is a prefix of text built later. */
  lemma {:induction false} ConcatPrefix(ps: seq<string>, i: nat, k: nat)
    requires i <= k <= |ps|
    ensures |Concat(ps, i)| <= |Concat(ps, k)|
    ensures Concat(ps, k)[..|Concat(ps, i)|] == Concat(ps, i)
  {
    if i < k {
      ConcatPrefix(ps, i, k - 1);
      var prev := Concat(ps, k - 1);
      assert Concat(ps, k)[..|Concat(ps, i)|] == prev[..|Concat(ps, i)|];
    }
  }

  lemma ConcatSlice(ps: seq<string>, es: seq<SpatialElement>, i: nat)
    requires |ps| == |es| && i < |es|
    ensures
      var text, r := Concat(ps, |ps|), RangesOver(ps, es)[i];
      r.ropeStart <= r.ropeEnd <= |text| && text[r.ropeStart..r.ropeEnd] == ps[i]
  {
    var text := Concat(ps, |ps|);
    var before, upto := Concat(ps, i), Concat(ps, i + 1);
    assert RangesOver(ps, es)[i].ropeStart == |before| && RangesOver(ps, es)[i].ropeEnd == |upto|;
    ConcatPrefix(ps, i + 1, |ps|);
    SliceOfPrefix(text, upto, |before|);
    assert upto[|before|..] == ps[i] by {
      assert upto == before + ps[i];
    }
  }

  /** Ranges recorded over any pieces lie in order inside their text. */
  lemma RangesOverValid(ps: seq<string>, es: seq<SpatialElement>)
    requires |ps| == |es|
    ensures RangesValid(RangesOver(ps, es), |Concat(ps, |ps|)|)
  {
    var rs := RangesOver(ps, es);
    forall i | 0 <= i < |rs|
      ensures rs[i].ropeStart <= rs[i].ropeEnd <= |Concat(ps, |ps|)|
    {
      ConcatSlice(ps, es, i);
    }
    forall i, j | 0 <= i < j < |rs| ensures rs[i].ropeEnd <= rs[j].ropeStart {
      ConcatPrefix(ps, i + 1, j);
    }
  }

  /** The ranges of a freshly built buffer lie in order inside its text,
      belong to their elements in order, and none is flagged. */
  lemma LayoutValid(es: seq<SpatialElement>)
    ensures RangesValid(LayoutRanges(es), |LayoutText(es)|)
    ensures forall i :: 0 <= i < |es| ==>
              LayoutRanges(es)[i].elementId == i && !LayoutRanges(es)[i].overflow
  {
    RangesOverValid(Pieces(es), es);
  }

  /** The ranges of a freshly built buffer lie in order inside its text,
      range `i` reading exactly element `i`'s piece: its opening line break,
      its content and its trailing space. */
  lemma LayoutTiles(es: seq<SpatialElement>)
    ensures RangesValid(LayoutRanges(es), |LayoutText(es)|)
    ensures forall i :: 0 <= i < |es| ==>
              var r := LayoutRanges(es)[i];
              r.ropeStart <= r.ropeEnd <= |LayoutText(es)|
              && LayoutText(es)[r.ropeStart..r.ropeEnd] == Piece(es, i)
  {
    var ps := Pieces(es);
    RangesOverValid(ps, es);
    forall i | 0 <= i < |es|
      ensures var r := RangesOver(ps, es)[i];
              r.ropeStart <= r.ropeEnd <= |Concat(ps, |ps|)|
              && Concat(ps, |ps|)[r.ropeStart..r.ropeEnd] == ps[i]
    {
      ConcatSlice(ps, es, i);
    }
  }

  /** Words laid out at VPOS 0, 3 and 20 with a first line opened at 0: the
      second shares the first line, the third opens a new line. */
  lemma LayoutExample()
    ensures
      var es := [SpatialElement("A", 0, 0, 8, 10), SpatialElement("B", 10, 3, 8, 10), SpatialElement("C", 0, 20, 8, 10)];
      var rs := LayoutRanges(es);
      LayoutText(es) == "A B\nC"
      && rs[0].ropeStart == 0 && rs[0].ropeEnd == 2
      && rs[1].ropeStart == 2 && rs[1].ropeEnd == 3
      && rs[2].ropeStart == 3 && rs[2].ropeEnd == 5
  {
    var es := [SpatialElement("A", 0, 0, 8, 10), SpatialElement("B", 10, 3, 8, 10), SpatialElement("C", 0, 20, 8, 10)];
    assert Piece(es, 0) == "A ";
    assert Piece(es, 1) == "B";
    assert Piece(es, 2) == "\nC";
    var ps := Pieces(es);
    assert ps == ["A ", "B", "\nC"];
    assert Concat(ps, 1) == "A ";
    assert Concat(ps, 2) == "A B";
    assert Concat(ps, 3) == "A B\nC";
  }
}
