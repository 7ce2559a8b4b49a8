/** Document-space geometry: points, axis-aligned boxes and the positioned words of a page. */
module Geometry {

  /** A point in document units. */
  datatype Point = Point(x: int, y: int)

  /** An axis-aligned box given by its two corners, like `egui::Rect`. */
  datatype Rect = Rect(minX: int, minY: int, maxX: int, maxY: int)
  {
    function Width(): int { maxX - minX }

    /** `Rect::contains`: both edges are inclusive. */
    predicate Contains(p: Point) {
      minX <= p.x <= maxX && minY <= p.y <= maxY
    }
  }

  /** One positioned word of the page (the source's `SpatialElement`, and the tuple
      `(content, hpos, vpos, width, height)` taken by the spatial text buffer). */
  datatype SpatialElement = SpatialElement(content: string, hpos: int, vpos: int, width: int, height: int)
  {
    /** `Rect::from_min_size((hpos, vpos), (width, height))`. */
    function Bounds(): Rect { Rect(hpos, vpos, hpos + width, vpos + height) }
  }
}
