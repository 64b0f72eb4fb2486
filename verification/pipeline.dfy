/** The frame loop shared by the two video scripts: read until the first
    failed read, render each frame, create the writer lazily from the first
    rendered frame, paste the overlay, write, release. */
module VideoPipeline {
  import opened Raster
  import opened OverlayCompositor

  /** One `cap.read()`: a frame, or `ret == False`. */
  datatype Read<F> = Frame(frame: F) | Failed

  /** The frames the loop processes: those before the first failed read. */
  function FramesRead<F>(grabs: seq<Read<F>>): (fs: seq<F>)
    ensures |fs| <= |grabs|
    decreases |grabs|
  {
    if |grabs| == 0 || grabs[0].Failed? then [] else [grabs[0].frame] + FramesRead(grabs[1..])
  }

  /** `FramesRead` is the longest run of good reads at the front: read i is
      frame i for every processed frame, and the next read, if any, failed. */
  lemma {:induction false} FramesReadIsPrefix<F>(grabs: seq<Read<F>>)
    ensures var fs := FramesRead(grabs);
            (forall i :: 0 <= i < |fs| ==> grabs[i] == Frame(fs[i])) &&
            (|fs| == |grabs| || grabs[|fs|].Failed?)
    decreases |grabs|
  {
    if |grabs| > 0 && grabs[0].Frame? {
      FramesReadIsPrefix(grabs[1..]);
    }
  }

  /** Whatever follows the first failed read is never looked at. */
  lemma {:induction false} ReadsAfterFailureIgnored<F>(grabs: seq<Read<F>>, rest: seq<Read<F>>)
    ensures FramesRead(grabs + [Failed] + rest) == FramesRead(grabs)
    decreases |grabs|
  {
    if |grabs| == 0 {
      assert (grabs + [Failed] + rest)[0] == Failed;
    } else {
      assert (grabs + [Failed] + rest)[1..] == grabs[1..] + [Failed] + rest;
      if grabs[0].Frame? { ReadsAfterFailureIgnored(grabs[1..], rest); }
    }
  }

  /** `fps = int(cap.get(cv2.CAP_PROP_FPS))` when `--fps` is 0, else `--fps`. */
  function ResolveFps(requested: int, sourceFps: real): (fps: int)
    ensures requested != 0 ==> fps == requested
    ensures requested == 0 && sourceFps >= 0.0 ==> fps as real <= sourceFps < fps as real + 1.0
  {
    if requested == 0 then Trunc(sourceFps) else requested
  }

  /** A `cv2.VideoWriter`: frame rate and frame size fixed at creation, and
      the frames handed to `write`, in order. */
  datatype Writer<T> = Writer(fps: int, width: nat, height: nat, frames: seq<seq<seq<T>>>)

  /** The loop state: still running, with or without a writer yet, or stopped
      by an exception after some frames were written. */
  datatype State<T> = Running(out: Option<Writer<T>>) | Crashed(written: nat)

  datatype Option<V> = None | Some(value: V)

  /** How a run ends: the writer released; nothing read and the guarded
      `if out:` skipping the release; `out.release()` on `None` raising; or
      an exception inside the loop. */
  datatype Outcome<T> = Encoded(writer: Writer<T>) | NoVideo | ReleaseError | Aborted(written: nat)

  /** `cv2.resize(frame, (cols, rows))` always returns a `rows` x `cols` raster. */
  ghost predicate ResizeShapes<F(!new), T>(resize: (F, nat, nat) -> seq<seq<T>>) {
    forall f, rows: nat, cols: nat :: |resize(f, rows, cols)| == rows &&
      forall y :: 0 <= y < rows ==> |resize(f, rows, cols)[y]| == cols
  }

  /** The frame handed to `write`: the rendered frame with the overlay pasted,
      or `None` when the overlay step raises. */
  function Composite<F(!new), T>(img: seq<seq<T>>, f: F, ratio: real, resize: (F, nat, nat) -> seq<seq<T>>): (r: Option<seq<seq<T>>>)
    requires Rectangular(img) && ResizeShapes(resize)
    ensures ratio == 0.0 ==> r == Some(img)
  {
    match PlanOverlay(|img|, Width(img), ratio)
    case Skip => Some(img)
    case Fails => None
    case Paste(top, left, rows, cols) => Some(Overlaid(img, top, left, resize(f, rows, cols)))
  }

  /** One iteration of the loop body for frame `f`. `render` is the script's
      frame-to-cropped-raster step, `None` where it raises. */
  function Step<F(!new), T>(s: State<T>, f: F, fps: int, render: F -> Option<seq<seq<T>>>,
                      ratio: real, resize: (F, nat, nat) -> seq<seq<T>>): (r: State<T>)
    requires ResizeShapes(resize)
    requires forall f :: render(f).Some? ==> Rectangular(render(f).value)
    ensures s.Crashed? ==> r == s
    ensures s.Running? && r.Running? ==>
              r.out.Some? && |r.out.value.frames| == (if s.out.Some? then |s.out.value.frames| else 0) + 1
    ensures s.Running? && r.Crashed? ==> r.written == (if s.out.Some? then |s.out.value.frames| else 0)
  {
    match s
    case Crashed(_) => s
    case Running(out) =>
      var written := if out.Some? then |out.value.frames| else 0;
      match render(f)
      case None => Crashed(written)
      case Some(img) =>
        var w := if out.Some? then out.value else Writer(fps, Width(img), |img|, []);
        match Composite(img, f, ratio, resize)
        case None => Crashed(written)
        case Some(frame) => Running(Some(w.(frames := w.frames + [frame])))
  }

  /** The loop state after processing the frames `fs` in order. */
  function Run<F(!new), T>(fs: seq<F>, fps: int, render: F -> Option<seq<seq<T>>>,
                     ratio: real, resize: (F, nat, nat) -> seq<seq<T>>): (r: State<T>)
    requires ResizeShapes(resize)
    requires forall f :: render(f).Some? ==> Rectangular(render(f).value)
    ensures r.Running? ==> (r.out.Some? <==> |fs| >= 1)
    ensures r.Running? && r.out.Some? ==> |r.out.value.frames| == |fs|
    ensures r.Crashed? ==> r.written < |fs|
    decreases |fs|
  {
    if |fs| == 0 then Running(None)
    else Step(Run(fs[..|fs| - 1], fps, render, ratio, resize), fs[|fs| - 1], fps, render, ratio, resize)
  }

  /** After the loop: `cap.release()` and then `out.release()`, guarded by
      `if out:` or not. */
  function Finish<T>(s: State<T>, guardRelease: bool): (r: Outcome<T>)
    ensures r.ReleaseError? <==> s == Running(None) && !guardRelease
    ensures r.NoVideo? <==> s == Running(None) && guardRelease
    ensures s.Crashed? ==> r == Aborted(s.written)
  {
    match s
    case Crashed(n) => Aborted(n)
    case Running(None) => if guardRelease then NoVideo else ReleaseError
    case Running(Some(w)) => Encoded(w)
  }

  /** An exception ends the run: later frames change nothing. */
  lemma {:induction false} CrashIsFinal<F(!new), T>(fs: seq<F>, k: nat, fps: int, render: F -> Option<seq<seq<T>>>,
                                               ratio: real, resize: (F, nat, nat) -> seq<seq<T>>)
    requires ResizeShapes(resize)
    requires forall f :: render(f).Some? ==> Rectangular(render(f).value)
    requires k <= |fs| && Run(fs[..k], fps, render, ratio, resize).Crashed?
    ensures Run(fs, fps, render, ratio, resize) == Run(fs[..k], fps, render, ratio, resize)
    decreases |fs|
  {
    if |fs| > k {
      assert fs[..|fs| - 1][..k] == fs[..k];
      CrashIsFinal(fs[..|fs| - 1], k, fps, render, ratio, resize);
    } else {
      assert fs[..k] == fs;
    }
  }

  /** While no exception occurs, the writer is the one created for the first
      frame, with the requested rate and the first rendered frame's size
      (after the crop, before the overlay), and it has received one frame per
      processed frame: frame i composited from render i. */
  lemma {:induction false} WriterFixedByFirstFrame<F(!new), T>(fs: seq<F>, fps: int, render: F -> Option<seq<seq<T>>>,
                                                         ratio: real, resize: (F, nat, nat) -> seq<seq<T>>)
    requires ResizeShapes(resize)
    requires forall f :: render(f).Some? ==> Rectangular(render(f).value)
    ensures match Run(fs, fps, render, ratio, resize)
            case Running(None) => |fs| == 0
            case Running(Some(w)) =>
              |fs| >= 1 && render(fs[0]).Some? &&
              w.fps == fps && w.width == Width(render(fs[0]).value) && w.height == |render(fs[0]).value| &&
              |w.frames| == |fs| &&
              forall i :: 0 <= i < |fs| ==>
                (render(fs[i]).Some? && Composite(render(fs[i]).value, fs[i], ratio, resize) == Some(w.frames[i]))
            case Crashed(n) => n < |fs|
    decreases |fs|
  {
    if |fs| > 0 {
      var prefix := fs[..|fs| - 1];
      WriterFixedByFirstFrame(prefix, fps, render, ratio, resize);
      if |prefix| > 0 { assert prefix[0] == fs[0]; }
      assert forall i :: 0 <= i < |prefix| ==> prefix[i] == fs[i];
    }
  }

  /** Without an overlay and with every frame rendered, nothing raises: the
      loop keeps running, and it has a writer exactly when a frame was read. */
  lemma {:induction false} NoFailureKeepsRunning<F(!new), T>(fs: seq<F>, fps: int, render: F -> Option<seq<seq<T>>>,
                                                           resize: (F, nat, nat) -> seq<seq<T>>)
    requires ResizeShapes(resize)
    requires forall f :: render(f).Some? ==> Rectangular(render(f).value)
    requires forall i :: 0 <= i < |fs| ==> render(fs[i]).Some?
    ensures Run(fs, fps, render, 0.0, resize).Running?
    ensures Run(fs, fps, render, 0.0, resize).out.Some? <==> |fs| >= 1
    decreases |fs|
  {
    if |fs| > 0 {
      var prefix := fs[..|fs| - 1];
      assert forall i :: 0 <= i < |prefix| ==> prefix[i] == fs[i];
      NoFailureKeepsRunning(prefix, fps, render, resize);
      assert render(fs[|fs| - 1]).Some?;
    }
  }

  /** The loop of `process_video` / `main`: `while cap.isOpened()`, read,
      stop at the first failed read, render, lazily create the writer, paste
      the overlay, write. An exception leaves the loop at once. */
  method ProcessVideo<F(!new), T>(grabs: seq<Read<F>>, fps: int, render: F -> Option<seq<seq<T>>>,
                            ratio: real, resize: (F, nat, nat) -> seq<seq<T>>, guardRelease: bool)
    returns (outcome: Outcome<T>)
    requires ResizeShapes(resize)
    requires forall f :: render(f).Some? ==> Rectangular(render(f).value)
    ensures outcome == Finish(Run(FramesRead(grabs), fps, render, ratio, resize), guardRelease)
  {
    ghost var fs := FramesRead(grabs);
    FramesReadIsPrefix(grabs);
    var out: Option<Writer<T>> := None;
    var i := 0;
    while i < |grabs| && grabs[i].Frame?
      invariant 0 <= i <= |fs|
      invariant Run(fs[..i], fps, render, ratio, resize) == Running(out)
      decreases |grabs| - i
    {
      var frame := grabs[i].frame;
      assert frame == fs[i];
      assert fs[..i + 1][..i] == fs[..i];
      var written := if out.Some? then |out.value.frames| else 0;
      var rendered := render(frame);
      if rendered.None? {
        CrashIsFinal(fs, i + 1, fps, render, ratio, resize);
        return Aborted(written);
      }
      var img := rendered.value;
      if out.None? {
        out := Some(Writer(fps, Width(img), |img|, []));
      }
      var composed := Composite(img, frame, ratio, resize);
      if composed.None? {
        CrashIsFinal(fs, i + 1, fps, render, ratio, resize);
        return Aborted(written);
      }
      out := Some(out.value.(frames := out.value.frames + [composed.value]));
      i := i + 1;
    }
    assert fs[..i] == fs;
    if out.None? {
      outcome := if guardRelease then NoVideo else ReleaseError;
    } else {
      outcome := Encoded(out.value);
    }
  }

  /** An empty or unreadable video makes video2video's unguarded
      `out.release()` raise, while video2video_color ends without output. */
  lemma NoFramesOutcome<F(!new), T>(grabs: seq<Read<F>>, fps: int, render: F -> Option<seq<seq<T>>>,
                              ratio: real, resize: (F, nat, nat) -> seq<seq<T>>)
    requires ResizeShapes(resize)
    requires forall f :: render(f).Some? ==> Rectangular(render(f).value)
    requires |grabs| == 0 || grabs[0].Failed?
    ensures Finish(Run(FramesRead(grabs), fps, render, ratio, resize), false) == ReleaseError
    ensures Finish(Run(FramesRead(grabs), fps, render, ratio, resize), true) == NoVideo
  {}
}
