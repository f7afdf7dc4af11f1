# Video generation with an FPS overlay, in Dafny

This project models `utils/gen_video.py`, the script that turns a list of
per-frame model predictions into a visualisation video. For every dataset
index, in order, it asks the dataset to draw the prediction of that index,
optionally stamps the measured processing rate of that index ("FPS: 12.3"
on a black box) from a separately recorded timing log, and appends the
frame to a `cv2.VideoWriter`. The writer is released once at the end.

Modules:

- `Frames` (frames.dfy): a frame is the raster the dataset annotator
  produced (an opaque value) plus the cv2 drawing calls made on the image
  buffer afterwards. `Image` is that buffer as a mutable object; `Rectangle`
  and `PutText` stand for `cv2.rectangle` and `cv2.putText`.
- `Overlay` (overlay.dfy): `draw_fps`: the label-box corner arithmetic
  (`LabelBox`) and the in-place drawing (`DrawFps`).
- `VideoSink` (sink.dfy): the video writer as an append-only sink, with the
  frames written so far, a released flag and a count of release calls.
- `GenVideo` (gen_video.dfy): `main`: the command-line arguments object
  whose `show_fps` is reassigned, the FPS-log decision, the frame loop, the
  reference functions saying which frames are written, and the lemmas about
  them.
- `Wrappers` (wrappers.dfy): `Option`, for the log that may be absent.

The code the script calls but does not define enters the model as
parameters: the dataset's `draw_annotation` is a function from (index,
prediction) to a raster, `cv2.getTextSize` a function from label text to
text metrics, and the one-decimal formatting of a rate sample a function
from sample to text (bundled in `GenVideo.Collaborators`). Whether the FPS
file exists and what unpickling it yields are inputs, as are the configured
image size, `len(dataset)` and the loaded prediction list.

Behaviour of the code worth knowing:

- The code never compares the prediction count with `len(dataset)`. With
  fewer predictions, `predictions[idx]` raises at the first missing index,
  after the earlier frames were written, and `main` does not call
  `release()` on that path. `GenVideo.GenerateVideo` models this exit
  (`completed` is false, and the writer's `released` flag records that no
  explicit release call was made) rather than a fail-fast check that is not
  there.
- The code has no try/finally: `release()` is called only on the normal
  exit, and the code promises nothing about the container being closed on
  an exception path.
- Frames are not checked against the configured resolution.

## Model

| member | source | states |
|---|---|---|
| `Overlay.LabelBox` | utils/gen_video.py:32-33 | the box is the text extent (x..x+w across, y-h..y+b down) padded by 5 on every side, so it is w+10 wide and h+b+10 tall, and it contains the anchor (x, y) when the metrics are non-negative |
| `Overlay.LabelText` | utils/gen_video.py:29 | the label is "FPS: " followed by the sample's formatted text, and nothing else |
| `Overlay.LabelMarks` | utils/gen_video.py:30-36 | draw_fps makes exactly two drawing calls: first a filled (thickness -1) black box with corners (x-5, y-h-5) and (x+w+5, y+b+5) for the metrics of the label text, w+10 wide and h+b+10 tall and covering the anchor for non-negative metrics; then the label text in green with thickness 2 at the anchor |
| `Overlay.DrawFps` | utils/gen_video.py:28-37 | draw_fps changes only the given image, appending the box and then the text to what was drawn on it before |
| `Frames.Image.constructor` | utils/gen_video.py:81 | a new image buffer holds the annotator's raster with nothing drawn on it |
| `Frames.Image.Rectangle` | utils/gen_video.py:32-33 | the rectangle call is recorded after the earlier drawing calls |
| `Frames.Image.PutText` | utils/gen_video.py:35-36 | the text call is recorded after the earlier drawing calls |
| `VideoSink.VideoWriter.constructor` | utils/gen_video.py:75-76 | a new writer keeps its path, codec tag, rate and (width, height), has written nothing and is not released |
| `VideoSink.VideoWriter.Write` | utils/gen_video.py:86 | one write appends exactly that frame and changes nothing else; it is only allowed before release |
| `VideoSink.VideoWriter.Release` | utils/gen_video.py:88 | release marks the writer released, counts the call and keeps the written frames |
| `GenVideo.LoadFpsData` | utils/gen_video.py:62-71 | the log is held exactly when --show_fps was given and the file exists; the flag stays on exactly in that case, so a missing file switches it off and leaves the log absent |
| `GenVideo.LoadedFpsLog` | utils/gen_video.py:62-67 | a log is held exactly when --show_fps was given and the file exists, and then it is the unpickled contents unchanged |
| `GenVideo.Truthy` | utils/gen_video.py:83 | the truth test on fps_vals fails exactly for None and for the empty list |
| `GenVideo.OverlayApplies` | utils/gen_video.py:83 | the per-frame test (flag, truthy log, idx < len) holds exactly when the flag is on, a log is held and idx < len(log): the emptiness test adds nothing |
| `GenVideo.RenderedFrame` | utils/gen_video.py:81-84 | frame idx has the annotator's raster for prediction idx; something is drawn on it exactly when the per-frame test holds, and then it is the label for sample idx at the default anchor |
| `GenVideo.RenderedVideo` | utils/gen_video.py:80-86 | one frame per dataset index, in index order, frame i built by the annotator from prediction i |
| `GenVideo.Alignment` | utils/gen_video.py:81-84 | frame i carries the label for sample i (the same index) exactly when the flag is on, a log is held and i < len(log); otherwise it is the annotator's output with nothing drawn |
| `GenVideo.PastLogUnchanged` | utils/gen_video.py:83-86 | frames at indices at or past the end of the log are still written, unchanged from the annotator |
| `GenVideo.NoLogNoOverlay` | utils/gen_video.py:62-71 | without --show_fps, or with the file missing, no log is held and the video is the plain annotated one, whatever the log file contains |
| `GenVideo.RenderedPrefix` | utils/gen_video.py:80-86 | the frames written for the first n indices do not depend on how many indices follow |
| `GenVideo.OverlayCount` | utils/gen_video.py:80-86 | exactly min(len(dataset), len(log)) frames are labelled when the flag is on and a log is held, and none otherwise |
| `GenVideo.GenerateVideo` | utils/gen_video.py:62-88 | main switches the flag off for a missing log, opens the writer with "mp4v", the given rate and (width, height) swapped from the configured (height, width), writes exactly the rendered frames in index order, and on the normal exit (predictions at least as long as the dataset) releases the writer exactly once after the last write, also for an empty dataset; with fewer predictions it stops at the first missing one, having written the frames before it, without a release call |

## Left out

- Argument parsing (`parse_args`), `--pred`, `--cfg`, `--legend` and `--view`: command-line plumbing; `Args` keeps only the fields `main` uses after loading.
- `Config`, `cfg.get_dataset` and `dataset.draw_annotation`: code outside this model, represented by the `annotate` parameter, the dataset length and the configured size; the two extra values `draw_annotation` returns are discarded by `main` and not modelled.
- Loading the predictions with `pickle` and the `numpy.ndarray.tolist` normalisation (utils/gen_video.py:52-57): the model takes the resulting list, assuming the conversion keeps length and order.
- Reading the FPS file and `os.path.exists`: the file's existence and its unpickled contents are inputs.
- Floating point: the one-decimal label formatting is the `formatRate` parameter; `np.mean` only feeds a diagnostic and is left out.
- `cv2.getTextSize`, `cv2.rectangle`, `cv2.putText`, `cv2.VideoWriter_fourcc` and encoding: foreign code. Text metrics are a parameter; drawing calls are recorded, not rasterised; the codec is kept as its tag "mp4v"; the font face, scale 0.7 and line type, identical on every call, are not recorded.
- `draw_fps` returns the image it was given; `DrawFps` changes the image in place and returns nothing, which is the same object for the caller.
- `tqdm` progress display and every `print` diagnostic, including the warning on a missing FPS file.
- Exceptions other than the out-of-range prediction index (a failing annotator, open or write error): not modelled.
- `generate_video_with_fps.py` (a launcher that checks two files exist and starts the script in a subprocess) and `lib/nms/setup.py` (a native build script) are not part of this model.
