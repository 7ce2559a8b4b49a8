/** `SpatialTextBuffer` and `SpatialCursor`: the unified rope, the element
    ranges and the spatial index, updated in place by edits, and a cursor
    that tracks a rope position and its anchor on the page. Coordinates are
    document coordinates; the zoom/pan transform is not modelled. */
module SpatialText {
  import opened Basics
  import opened Geometry
  import opened SpatialIndex
  import opened ElementRanges

  /** The buffer invariant on the values of its fields: the ranges lie in
      order inside the rope, range `i` belongs to element `i`, only modified
      ranges are flagged overflowing, and the index is the one built from the
      ranges' visual bounds. */
  ghost predicate BufferValid(rope: string, ranges: seq<ElementRange>, index: GridIndex) {
    RangesValid(ranges, |rope|)
    && (forall i :: 0 <= i < |ranges| ==>
          ranges[i].elementId == i && (ranges[i].overflow ==> ranges[i].modified))
    && BuiltFrom(index, Boxes(ranges))
  }

  /** The field values `from_alto_elements` computes: the laid-out rope, its
      ranges and the index built over their bounds, which together satisfy
      the buffer invariant. */
  method BuildBuffer(es: seq<SpatialElement>) returns (rope: string, ranges: seq<ElementRange>, index: GridIndex)
    ensures rope == LayoutText(es) && ranges == LayoutRanges(es)
    ensures BufferValid(rope, ranges, index)
  {
    rope, ranges := BuildRope(es);
    index := Rebuild(Boxes(ranges));
    LayoutValid(es);
  }

  class SpatialTextBuffer {
    var rope: string
    var ranges: seq<ElementRange>
    var index: GridIndex

    /** The ranges lie in order inside the rope, range `i` belongs to element
        `i`, only modified ranges are flagged overflowing, and the index is
        the one built from the ranges' visual bounds. */
    ghost predicate Valid()
      reads this
    {
      BufferValid(rope, ranges, index)
    }

    /** `from_alto_elements`: lay the elements out into the rope text and
        one range per element, then build the index. */
    constructor FromAltoElements(es: seq<SpatialElement>)
      ensures rope == LayoutText(es) && ranges == LayoutRanges(es)
      ensures Valid()
    {
      var text, rs, built := BuildBuffer(es);
      rope, ranges, index := text, rs, built;
    }

    /** `insert_text`: the rope takes the text at `pos`; the first pass moves
        or grows every range; the second collects a width check for every
        range flagged modified and overflowing; the third stores the results.
        The index is untouched: no range's bounds change. */
    method InsertText(pos: nat, text: string)
      requires Valid() && pos <= |rope|
      modifies this
      ensures rope == InsertAt(old(rope), pos, text)
      ensures RangesValid(ShiftAll(old(ranges), pos, |text|), |rope|)
      ensures ranges == InsertedRanges(old(ranges), rope, pos, |text|)
      ensures index == old(index)
      ensures Valid()
    {
      InsertKeepsValid(ranges, rope, pos, text);
      ghost var before := ranges;
      rope := rope[..pos] + text + rope[pos..];
      var shifted := ShiftRanges(ranges, pos, |text|);
      var checks := CollectOverflowChecks(shifted, rope);
      ranges := ApplyOverflowChecks(shifted, checks);
      forall j | 0 <= j < |ranges|
        ensures ranges[j].elementId == j && (ranges[j].overflow ==> ranges[j].modified)
      {
        InsertOverflowSound(before, old(rope), pos, text, j);
      }
      assert Boxes(ranges) == Boxes(before);
    }

    /** `delete_range`: the rope loses `[start, end)`; every range collapses
        or moves back; the index is rebuilt, and since no range's bounds
        change it comes out as it was. */
    method DeleteRange(start: nat, end: nat)
      requires Valid() && start <= end <= |rope|
      modifies this
      ensures rope == RemoveRange(old(rope), start, end)
      ensures ranges == DeletedRanges(old(ranges), start, end)
      ensures index == old(index)
      ensures Valid()
    {
      DeleteKeepsValid(ranges, |rope|, start, end);
      ghost var before := ranges;
      rope := rope[..start] + rope[end..];
      ranges := CollapseRanges(ranges, start, end);
      assert Boxes(ranges) == Boxes(before);
      index := Rebuild(Boxes(ranges));
      BuiltFromUnique(Boxes(before), index, old(index));
    }

    /** `rope_to_screen_position` without the zoom/pan transform: scan the
        ranges for the one holding `pos` and place the anchor inside it. */
    method RopeToScreenPosition(pos: nat) returns (p: Option<Point>)
      ensures p == RopeToScreen(ranges, pos)
    {
      var i := 0;
      while i < |ranges|
        invariant i <= |ranges|
        invariant forall j :: 0 <= j < i ==> !InRange(ranges[j], pos)
      {
        var e := ranges[i];
        if pos >= e.ropeStart && pos < e.ropeEnd {
          var offset := pos - e.ropeStart;
          var len := e.ropeEnd - e.ropeStart;
          var w := e.visualBounds.Width();
          var localX := if len > 0 then offset * w / len + 5 else offset * 8 + 5;
          return Some(Point(e.visualBounds.minX + localX, e.visualBounds.minY));
        }
        i := i + 1;
      }
      return None;
    }
  }

  /** The loop of `from_alto_elements`: a line break before an element whose
      VPOS strays more than 5 from the current line's, the content, and a
      space when the next element sits within 5 of this one's VPOS; each
      element's range spans what it added. */
  method BuildRope(es: seq<SpatialElement>) returns (ropeText: string, rs: seq<ElementRange>)
    ensures ropeText == LayoutText(es) && rs == LayoutRanges(es)
  {
    ropeText := "";
    rs := [];
    var charPos: nat := 0;
    var currentLineVpos := -1;
    var i := 0;
    while i < |es|
      invariant i <= |es|
      invariant ropeText == Concat(Pieces(es), i) && charPos == |ropeText|
      invariant rs == LayoutRanges(es)[..i]
      invariant i > 0 ==> currentLineVpos == LineVpos(es, i - 1)
    {
      var startPos := charPos;
      LayoutRangeAt(es, i);
      PrefixStep(LayoutRanges(es), i);
      ropeText, charPos, currentLineVpos := PlaceElement(es, i, ropeText, charPos, currentLineVpos);
      var e := es[i];
      var r := ElementRange(startPos, charPos, i, e.Bounds(), e.Bounds(), false, false);
      assert r == LayoutRanges(es)[i];
      rs := rs + [r];
      i := i + 1;
    }
    WholePrefix(LayoutRanges(es));
  }

  /** The body of that loop for element `i`: the line break, the content and
      the space, with the rope length and the current line's VPOS kept up. */
  method PlaceElement(es: seq<SpatialElement>, i: nat, text: string, pos: nat, lineVpos: int)
    returns (ropeText: string, charPos: nat, currentLineVpos: int)
    requires i < |es| && pos == |text| && (i > 0 ==> lineVpos == LineVpos(es, i - 1))
    ensures ropeText == text + Piece(es, i) && charPos == |ropeText|
    ensures currentLineVpos == LineVpos(es, i)
  {
    LayoutStep(es, i, lineVpos);
    ropeText, charPos, currentLineVpos := text, pos, lineVpos;
    var e := es[i];
    ghost var nl := if NewlineBefore(es, i) then "\n" else "";
    if i > 0 && Abs(e.vpos - currentLineVpos) > 5 {
      ropeText := ropeText + "\n";
      charPos := charPos + 1;
      currentLineVpos := e.vpos;
    } else if i == 0 {
      currentLineVpos := e.vpos;
    }
    assert ropeText == text + nl;
    ropeText := ropeText + e.content;
    charPos := charPos + |e.content|;
    assert ropeText == text + (nl + e.content);
    if i < |es| - 1 {
      var nextVpos := es[i + 1].vpos;
      if Abs(nextVpos - e.vpos) <= 5 {
        ropeText := ropeText + " ";
        charPos := charPos + 1;
      }
    }
  }

  /** The first pass of `insert_text`. */
  method ShiftRanges(rs: seq<ElementRange>, pos: nat, n: nat) returns (out: seq<ElementRange>)
    ensures out == ShiftAll(rs, pos, n)
  {
    out := rs;
    var i := 0;
    while i < |out|
      invariant i <= |out| == |rs|
      invariant out == ShiftAll(rs, pos, n)[..i] + rs[i..]
    {
      var e := out[i];
      if e.ropeStart > pos {
        e := e.(ropeStart := e.ropeStart + n, ropeEnd := e.ropeEnd + n);
      } else if e.ropeEnd > pos {
        e := e.(ropeEnd := e.ropeEnd + n, modified := true, overflow := true);
      }
      out := out[i := e];
      i := i + 1;
    }
  }

  /** The second pass of `insert_text`. */
  method CollectOverflowChecks(rs: seq<ElementRange>, rope: string) returns (checks: seq<(nat, bool)>)
    requires RangesValid(rs, |rope|)
    ensures checks == OverflowChecks(rs, rope, |rs|)
  {
    checks := [];
    var i := 0;
    while i < |rs|
      invariant i <= |rs|
      invariant checks == OverflowChecks(rs, rope, i)
    {
      var e := rs[i];
      if e.modified && e.overflow {
        checks := checks + [(i, Exceeds(rope[e.ropeStart..e.ropeEnd], e.originalBounds))];
      }
      i := i + 1;
    }
  }

  /** The third pass of `insert_text`. */
  method ApplyOverflowChecks(rs: seq<ElementRange>, checks: seq<(nat, bool)>) returns (out: seq<ElementRange>)
    requires forall k :: 0 <= k < |checks| ==> checks[k].0 < |rs|
    ensures out == ApplyChecks(rs, checks)
  {
    out := rs;
    var k := 0;
    while k < |checks|
      invariant k <= |checks|
      invariant out == ApplyChecks(rs, checks[..k])
    {
      var (j, exceeds) := checks[k];
      assert checks[..k + 1][..k] == checks[..k];
      out := out[j := out[j].(overflow := exceeds)];
      k := k + 1;
    }
    assert checks[..|checks|] == checks;
  }

  /** The loop of `delete_range`. */
  method CollapseRanges(rs: seq<ElementRange>, start: nat, end: nat) returns (out: seq<ElementRange>)
    requires start <= end
    requires forall i :: 0 <= i < |rs| ==> rs[i].ropeStart <= rs[i].ropeEnd
    ensures out == DeletedRanges(rs, start, end)
  {
    var d := end - start;
    out := rs;
    var i := 0;
    while i < |out|
      invariant i <= |out| == |rs|
      invariant out == DeletedRanges(rs, start, end)[..i] + rs[i..]
    {
      var e := out[i];
      if e.ropeStart > end {
        e := e.(ropeStart := e.ropeStart - d, ropeEnd := e.ropeEnd - d);
      } else if e.ropeEnd > start {
        if e.ropeStart >= start {
          e := e.(ropeStart := start);
        }
        if e.ropeEnd > end {
          e := e.(ropeEnd := e.ropeEnd - d);
        } else {
          e := e.(ropeEnd := start);
        }
        e := e.(modified := true);
      }
      out := out[i := e];
      i := i + 1;
    }
  }

  class SpatialCursor {
    var ropePos: nat
    var screenPos: Option<Point>

    constructor ()
      ensures ropePos == 0 && screenPos == None
    {
      ropePos := 0;
      screenPos := None;
    }

    /** `update_position` without the blink timer: re-anchor on the page. */
    method UpdatePosition(buffer: SpatialTextBuffer)
      modifies this
      ensures ropePos == old(ropePos)
      ensures screenPos == RopeToScreen(buffer.ranges, ropePos)
    {
      screenPos := buffer.RopeToScreenPosition(ropePos);
    }

    /** `move_to_rope_position`: the position is clamped to the rope's end. */
    method MoveToRopePosition(pos: nat, buffer: SpatialTextBuffer)
      modifies this
      ensures ropePos == Min(pos, |buffer.rope|)
      ensures screenPos == RopeToScreen(buffer.ranges, ropePos)
    {
      ropePos := Min(pos, |buffer.rope|);
      UpdatePosition(buffer);
    }

    /** `move_to_screen_position`: the cursor moves only when the click lands
        on an element, and then stays inside the rope. */
    method MoveToScreenPosition(p: Point, buffer: SpatialTextBuffer)
      requires buffer.Valid()
      modifies this
      ensures ScreenToRope(buffer.ranges, buffer.index, p).None? ==>
                ropePos == old(ropePos) && screenPos == old(screenPos)
      ensures ScreenToRope(buffer.ranges, buffer.index, p).Some? ==>
                ropePos == ScreenToRope(buffer.ranges, buffer.index, p).value && screenPos == Some(p)
      ensures old(ropePos) <= |buffer.rope| ==> ropePos <= |buffer.rope|
    {
      match ScreenToRope(buffer.ranges, buffer.index, p)
      case Some(r) =>
        FoundIsIndexed(Boxes(buffer.ranges), buffer.index, p);
        ropePos := r;
        screenPos := Some(p);
      case None =>
    }
  }
}
