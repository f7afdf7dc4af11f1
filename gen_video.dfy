/**
 * The video generator: loads the optional FPS log, then walks the dataset
 * indices in order, annotates frame idx with prediction idx, overlays the
 * FPS sample of the same index while the log lasts, writes every frame to
 * the video writer and releases the writer once at the end.
 */
module GenVideo {
  import opened Wrappers
  import opened Frames
  import opened Overlay
  import opened VideoSink

  /** The parsed command line that main reads; show_fps is reassigned in place. */
  class Args {
    const outPath: string
    const fps: int
    const fpsData: string
    var showFps: bool

    constructor (outPath: string, fps: int, showFps: bool, fpsData: string)
      ensures this.outPath == outPath && this.fps == fps && this.showFps == showFps && this.fpsData == fpsData
    {
      this.outPath, this.fps, this.showFps, this.fpsData := outPath, fps, showFps, fpsData;
    }
  }

  /**
   * The code main calls but does not define: the dataset's annotator
   * (draw_annotation, giving the rendered raster for an index and its
   * prediction), the one-decimal formatting of a rate sample, and
   * cv2.getTextSize for the label's font.
   */
  datatype Collaborators<!P, R, !T> = Collaborators(
    annotate: (nat, P) -> R,
    formatRate: T -> string,
    textSize: string -> TextMetrics)

  const Codec: string := "mp4v"

  /**
   * The FPS log main ends up holding: held, and then exactly as unpickled,
   * only when the overlay was asked for and the file exists.
   */
  function LoadedFpsLog<T>(showFps: bool, logExists: bool, log: seq<T>): (r: Option<seq<T>>)
    ensures r.Some? <==> showFps && logExists
    ensures r.Some? ==> r.value == log
  {
    if showFps && logExists then Some(log) else None
  }

  /** Python's truth value of fps_vals: neither None nor an empty list. */
  predicate Truthy<T>(fpsVals: Option<seq<T>>)
    ensures Truthy(fpsVals) <==> fpsVals != None && fpsVals != Some([])
  {
    fpsVals.Some? && |fpsVals.value| > 0
  }

  /**
   * The condition main tests before drawing the label on frame idx. The
   * emptiness test is implied by the bound: the label is drawn exactly when
   * the overlay is on, a log is held and idx indexes into it.
   */
  predicate OverlayApplies<T>(showFps: bool, fpsVals: Option<seq<T>>, idx: nat)
    ensures OverlayApplies(showFps, fpsVals, idx) <==> showFps && fpsVals.Some? && idx < |fpsVals.value|
  {
    showFps && Truthy(fpsVals) && idx < |fpsVals.value|
  }

  /**
   * The frame main writes for index idx: the annotator's raster for
   * prediction idx, with the label for sample idx drawn on it when the
   * per-frame test holds, and nothing drawn on it otherwise.
   */
  function RenderedFrame<P, R, T>(c: Collaborators<P, R, T>, predictions: seq<P>, showFps: bool,
                                  fpsVals: Option<seq<T>>, idx: nat): (f: Frame<R>)
    requires idx < |predictions|
    ensures f.raster == c.annotate(idx, predictions[idx])
    ensures f.marks == [] <==> !OverlayApplies(showFps, fpsVals, idx)
    ensures OverlayApplies(showFps, fpsVals, idx)
            ==> f.marks == LabelMarks(fpsVals.value[idx], DefaultAnchor, c.formatRate, c.textSize)
  {
    var raster := c.annotate(idx, predictions[idx]);
    if OverlayApplies(showFps, fpsVals, idx)
    then Frame(raster, LabelMarks(fpsVals.value[idx], DefaultAnchor, c.formatRate, c.textSize))
    else Frame(raster, [])
  }

  /**
   * The frames main writes for a dataset of n entries, in writing order: one
   * per index, entry i rendered from prediction i.
   */
  function RenderedVideo<P, R, T>(c: Collaborators<P, R, T>, n: nat, predictions: seq<P>, showFps: bool,
                                  fpsVals: Option<seq<T>>): (r: seq<Frame<R>>)
    requires n <= |predictions|
    ensures |r| == n
    ensures forall i :: 0 <= i < n ==> r[i].raster == c.annotate(i, predictions[i])
  {
    seq(n, i requires 0 <= i < n => RenderedFrame(c, predictions, showFps, fpsVals, i))
  }

  /** The frames written when no label is ever drawn: the annotator's output, unchanged. */
  function PlainVideo<P, R>(annotate: (nat, P) -> R, n: nat, predictions: seq<P>): seq<Frame<R>>
    requires n <= |predictions|
  {
    seq(n, i requires 0 <= i < n => Frame(annotate(i, predictions[i]), []))
  }

  /** How many of the frames carry a drawing on top of the annotation. */
  function OverlaidCount<R>(frames: seq<Frame<R>>): nat
  {
    if frames == [] then 0
    else OverlaidCount(frames[..|frames| - 1]) + (if frames[|frames| - 1].marks != [] then 1 else 0)
  }

  function Min(a: int, b: int): int
  {
    if a <= b then a else b
  }

  /**
   * The alignment rule: frame i carries the label for sample i exactly when
   * the overlay is on, a log is held and i < |log|; every other frame is the
   * annotator's output with nothing drawn on it.
   */
  lemma Alignment<P, R, T>(c: Collaborators<P, R, T>, n: nat, predictions: seq<P>, showFps: bool,
                           fpsVals: Option<seq<T>>, i: nat)
    requires n <= |predictions| && i < n
    ensures var f := RenderedVideo(c, n, predictions, showFps, fpsVals)[i];
      if showFps && fpsVals.Some? && i < |fpsVals.value|
      then f == Frame(c.annotate(i, predictions[i]), LabelMarks(fpsVals.value[i], DefaultAnchor, c.formatRate, c.textSize))
      else f == Frame(c.annotate(i, predictions[i]), [])
  {
  }

  /** Frames past the end of the log are still written, with nothing drawn on them. */
  lemma PastLogUnchanged<P, R, T>(c: Collaborators<P, R, T>, n: nat, predictions: seq<P>, showFps: bool,
                                  log: seq<T>, i: nat)
    requires n <= |predictions| && |log| <= i < n
    ensures RenderedVideo(c, n, predictions, showFps, Some(log))[i] == Frame(c.annotate(i, predictions[i]), [])
  {
  }

  /**
   * With the flag off, or with the log file missing, no frame gets a label,
   * whatever the log file would contain, and the written video is the plain
   * annotated one.
   */
  lemma NoLogNoOverlay<P, R, T>(c: Collaborators<P, R, T>, n: nat, predictions: seq<P>, showFps: bool,
                                logExists: bool, log: seq<T>)
    requires n <= |predictions|
    requires !showFps || !logExists
    ensures LoadedFpsLog(showFps, logExists, log) == None
    ensures RenderedVideo(c, n, predictions, showFps && logExists, LoadedFpsLog(showFps, logExists, log))
         == PlainVideo(c.annotate, n, predictions)
  {
  }

  /** The first n frames written for a longer dataset are those written for a dataset of n entries. */
  lemma RenderedPrefix<P, R, T>(c: Collaborators<P, R, T>, n: nat, m: nat, predictions: seq<P>, showFps: bool,
                                fpsVals: Option<seq<T>>)
    requires n <= m <= |predictions|
    ensures RenderedVideo(c, m, predictions, showFps, fpsVals)[..n] == RenderedVideo(c, n, predictions, showFps, fpsVals)
  {
  }

  /** The number of labelled frames is min(n, |log|) when the overlay is on and a log is held, and 0 otherwise. */
  lemma {:induction false} OverlayCount<P, R, T>(c: Collaborators<P, R, T>, n: nat, predictions: seq<P>,
                                                 showFps: bool, fpsVals: Option<seq<T>>)
    requires n <= |predictions|
    ensures OverlaidCount(RenderedVideo(c, n, predictions, showFps, fpsVals))
         == if showFps && fpsVals.Some? then Min(n, |fpsVals.value|) else 0
  {
    if n > 0 {
      var v := RenderedVideo(c, n, predictions, showFps, fpsVals);
      RenderedPrefix(c, n - 1, n, predictions, showFps, fpsVals);
      OverlayCount(c, n - 1, predictions, showFps, fpsVals);
      assert v[n - 1] == RenderedFrame(c, predictions, showFps, fpsVals, n - 1);
    }
  }

  /**
   * Loading the FPS log: it is loaded only when --show_fps is given and the
   * file exists; when it is given and the file is missing, the flag is
   * switched off. logExists stands for os.path.exists(args.fpsData) and
   * `log` for what unpickling that file yields.
   */
  method LoadFpsData<T>(args: Args, logExists: bool, log: seq<T>) returns (fpsVals: Option<seq<T>>)
    modifies args
    ensures fpsVals == LoadedFpsLog(old(args.showFps), logExists, log)
    ensures args.showFps == (old(args.showFps) && logExists)
  {
    fpsVals := None;
    if args.showFps {
      if logExists {
        fpsVals := Some(log);
      } else {
        args.showFps := false;
      }
    }
  }

  /**
   * main, from loading the FPS log to releasing the writer. imgSize is the
   * configured (height, width); datasetLen is len(dataset); predictions is
   * the loaded prediction list; logExists and log are as in LoadFpsData.
   * Lengths are never compared: when the list is shorter than the dataset,
   * predictions[idx] raises at the first missing index, after the frames
   * before it were written, and main does not call release on that path
   * (`!video.released` records only that no explicit release call was made;
   * nothing is promised about the container being closed some other way).
   * `completed` tells the two exits apart. On the normal exit the
   * writer holds exactly the rendered frames, in index order, and has been
   * released once, after the last write.
   */
  method GenerateVideo<P, R, T>(args: Args, imgSize: (int, int), datasetLen: nat, predictions: seq<P>,
                                logExists: bool, log: seq<T>, c: Collaborators<P, R, T>)
    returns (video: VideoWriter<R>, completed: bool)
    modifies args
    ensures args.showFps == (old(args.showFps) && logExists)
    ensures fresh(video)
    ensures video.path == args.outPath && video.fourcc == Codec && video.rate == args.fps
    ensures video.frameSize == (imgSize.1, imgSize.0)
    ensures completed <==> datasetLen <= |predictions|
    ensures video.written == RenderedVideo(c, Min(datasetLen, |predictions|), predictions, args.showFps,
                                           LoadedFpsLog(old(args.showFps), logExists, log))
    ensures video.Valid()
    ensures completed ==> video.released && video.releaseCount == 1
    ensures !completed ==> !video.released
  {
    var fpsVals := LoadFpsData(args, logExists, log);
    var (h, w) := imgSize;
    video := new VideoWriter(args.outPath, Codec, args.fps, (w, h));
    ghost var showFps := args.showFps;
    ghost var expected := RenderedVideo(c, Min(datasetLen, |predictions|), predictions, showFps, fpsVals);
    for idx := 0 to datasetLen
      invariant args.showFps == showFps
      invariant idx <= |predictions|
      invariant video.Valid() && !video.released && video.releaseCount == 0
      invariant video.written == expected[..idx]
    {
      if idx == |predictions| {
        // IndexError out of predictions[idx]: main stops here, before release.
        assert expected[..idx] == expected;
        return video, false;
      }
      var img := new Image(c.annotate(idx, predictions[idx]));
      if args.showFps && Truthy(fpsVals) && idx < |fpsVals.value| {
        DrawFps(img, fpsVals.value[idx], DefaultAnchor, c.formatRate, c.textSize);
      }
      assert img.Snapshot() == expected[idx];
      video.Write(img.Snapshot());
      assert expected[..idx + 1] == expected[..idx] + [expected[idx]];
    }
    assert expected[..datasetLen] == expected;
    video.Release();
    completed := true;
  }
}
