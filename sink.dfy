/** The cv2.VideoWriter the frames go into, as an append-only sink. */
module VideoSink {
  import opened Frames

  class VideoWriter<R> {
    const path: string
    const fourcc: string
    const rate: int
    /** (width, height), the order cv2.VideoWriter takes them in. */
    const frameSize: (int, int)

    /** The frames encoded so far, oldest first. */
    var written: seq<Frame<R>>
    var released: bool
    /** How many times release has been called. */
    var releaseCount: nat

    ghost predicate Valid()
      reads this
    {
      released <==> releaseCount > 0
    }

    constructor (path: string, fourcc: string, rate: int, frameSize: (int, int))
      ensures Valid()
      ensures this.path == path && this.fourcc == fourcc && this.rate == rate && this.frameSize == frameSize
      ensures written == [] && !released && releaseCount == 0
    {
      this.path, this.fourcc, this.rate, this.frameSize := path, fourcc, rate, frameSize;
      written, released, releaseCount := [], false, 0;
    }

    /** Encodes one more frame; the (value of the) frame is taken as it is at the call. */
    method Write(frame: Frame<R>)
      requires Valid() && !released
      modifies this
      ensures Valid()
      ensures written == old(written) + [frame]
      ensures released == old(released) && releaseCount == old(releaseCount)
    {
      written := written + [frame];
    }

    /** Flushes and closes the container. */
    method Release()
      requires Valid()
      modifies this
      ensures Valid()
      ensures released && releaseCount == old(releaseCount) + 1
      ensures written == old(written)
    {
      released := true;
      releaseCount := releaseCount + 1;
    }
  }
}
