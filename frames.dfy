/**
 * Raster frames and the cv2 drawing calls made on them.
 *
 * A frame is represented by the raster the dataset annotator rendered (an
 * opaque value) together with the drawing calls made on the image buffer
 * after annotation, in the order they were made.
 */
module Frames {

  /** An integer pixel coordinate, as cv2 takes it. */
  datatype Point = Point(x: int, y: int)

  /** A colour in cv2's blue-green-red channel order. */
  datatype Bgr = Bgr(b: int, g: int, r: int)

  /** One drawing call recorded on an image buffer. */
  datatype Mark =
    | Box(pt1: Point, pt2: Point, color: Bgr, thickness: int)
    | Text(text: string, org: Point, color: Bgr, thickness: int)

  /** The value of an image buffer at one moment. */
  datatype Frame<R> = Frame(raster: R, marks: seq<Mark>)

  /** The image buffer the annotator hands back; the drawing calls change it in place. */
  class Image<R> {
    const raster: R
    var marks: seq<Mark>

    constructor (raster: R)
      ensures this.raster == raster && marks == []
    {
      this.raster := raster;
      marks := [];
    }

    /** The current contents of the buffer. */
    function Snapshot(): Frame<R>
      reads this
    {
      Frame(raster, marks)
    }

    /** cv2.rectangle: draws the rectangle with corners pt1 and pt2 (filled when thickness is negative). */
    method Rectangle(pt1: Point, pt2: Point, color: Bgr, thickness: int)
      modifies this
      ensures marks == old(marks) + [Box(pt1, pt2, color, thickness)]
    {
      marks := marks + [Box(pt1, pt2, color, thickness)];
    }

    /** cv2.putText: draws text with its baseline-left corner at org. */
    method PutText(text: string, org: Point, color: Bgr, thickness: int)
      modifies this
      ensures marks == old(marks) + [Text(text, org, color, thickness)]
    {
      marks := marks + [Text(text, org, color, thickness)];
    }
  }
}
