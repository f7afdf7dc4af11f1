/**
 * The FPS label drawn by draw_fps: a filled black box sized to the label's
 * text metrics plus a fixed padding, and the green label text on top of it.
 */
module Overlay {
  import opened Frames

  /** Margin between the text extent and the edge of the background box. */
  const Padding: int := 5

  /** Where draw_fps puts the label when the caller gives no position. */
  const DefaultAnchor: Point := Point(10, 30)

  const Black: Bgr := Bgr(0, 0, 0)
  const Green: Bgr := Bgr(0, 255, 0)

  /** cv2's thickness value for a filled rectangle. */
  const FilledThickness: int := -1
  const TextThickness: int := 2

  const LabelPrefix: string := "FPS: "

  /**
   * What cv2.getTextSize reports for a label: the text's width and height
   * above the baseline, and the baseline offset below it.
   */
  datatype TextMetrics = TextMetrics(width: int, height: int, baseline: int)

  /** The two corners handed to cv2.rectangle. */
  datatype Corners = Corners(topLeft: Point, bottomRight: Point)

  /** Whether a point lies inside the closed rectangle given by its corners. */
  predicate Inside(p: Point, c: Corners)
  {
    c.topLeft.x <= p.x <= c.bottomRight.x && c.topLeft.y <= p.y <= c.bottomRight.y
  }

  /**
   * The corners of the label's background box: the text extent, which runs
   * from pos.x to pos.x + width across and from pos.y - height to
   * pos.y + baseline down, grown by Padding on every side.
   */
  function LabelBox(pos: Point, m: TextMetrics): (r: Corners)
    ensures pos.x - r.topLeft.x == Padding && r.bottomRight.x - (pos.x + m.width) == Padding
    ensures (pos.y - m.height) - r.topLeft.y == Padding && r.bottomRight.y - (pos.y + m.baseline) == Padding
    ensures r.bottomRight.x - r.topLeft.x == m.width + 2 * Padding
    ensures r.bottomRight.y - r.topLeft.y == m.height + m.baseline + 2 * Padding
    ensures m.width >= 0 && m.height >= 0 && m.baseline >= 0 ==> Inside(pos, r)
  {
    Corners(Point(pos.x - Padding, pos.y - m.height - Padding),
            Point(pos.x + m.width + Padding, pos.y + m.baseline + Padding))
  }

  /**
   * The label text for one rate sample: "FPS: " followed by the sample as
   * formatRate (the one-decimal formatting) renders it.
   */
  function LabelText<T>(fps: T, formatRate: T -> string): (text: string)
    ensures |text| == |LabelPrefix| + |formatRate(fps)|
    ensures text[..|LabelPrefix|] == LabelPrefix && text[|LabelPrefix|..] == formatRate(fps)
  {
    LabelPrefix + formatRate(fps)
  }

  /**
   * The drawing calls draw_fps makes, in order: exactly two; first a filled
   * black box whose corners are the measured text extent grown by Padding
   * on every side (so it covers the anchor for non-negative metrics), then
   * the label text in green at the anchor, on top of the box.
   */
  function LabelMarks<T>(fps: T, pos: Point, formatRate: T -> string, textSize: string -> TextMetrics): (ms: seq<Mark>)
    ensures var text := LabelPrefix + formatRate(fps);
      var m := textSize(text);
      |ms| == 2
      && ms[0] == Box(Point(pos.x - 5, pos.y - m.height - 5), Point(pos.x + m.width + 5, pos.y + m.baseline + 5), Black, -1)
      && ms[0].pt2.x - ms[0].pt1.x == m.width + 2 * Padding
      && ms[0].pt2.y - ms[0].pt1.y == m.height + m.baseline + 2 * Padding
      && (m.width >= 0 && m.height >= 0 && m.baseline >= 0 ==> Inside(pos, Corners(ms[0].pt1, ms[0].pt2)))
      && ms[1] == Text(text, pos, Green, TextThickness)
  {
    var text := LabelText(fps, formatRate);
    var box := LabelBox(pos, textSize(text));
    [Box(box.topLeft, box.bottomRight, Black, FilledThickness), Text(text, pos, Green, TextThickness)]
  }

  /**
   * draw_fps: draws the label for one rate sample onto img in place, leaving
   * the raster and the earlier drawing calls untouched.
   */
  method DrawFps<R, T>(img: Image<R>, fps: T, pos: Point, formatRate: T -> string, textSize: string -> TextMetrics)
    modifies img
    ensures img.marks == old(img.marks) + LabelMarks(fps, pos, formatRate, textSize)
  {
    var text := LabelText(fps, formatRate);
    var m := textSize(text);
    var box := LabelBox(pos, m);
    img.Rectangle(box.topLeft, box.bottomRight, Black, FilledThickness);
    img.PutText(text, pos, Green, TextThickness);
  }
}
