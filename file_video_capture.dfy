/** The frame range of `FileVideoCapture` (dvgutils/modules/video_capture/file_video_capture.py):
    `open` fills in and checks the start and end frames against the capture's frame count, and
    `read` withholds frames read past the end frame. The capture itself is abstract: what opening it
    reports (whether it opened, its frame count) and what each read reports (whether a frame was
    grabbed, the frame, the position afterwards) are parameters. A time setting is read with
    `str_to_sec` (Misc.StrToMs); turning its milliseconds into a frame at the capture's frame rate,
    `int(sec * fps)`, is the parameter `msToFrame`. */
module FileVideoCapture {
  import opened Wrappers
  import Misc

  /** A start or end frame as configured: absent, a frame number, or a time string. */
  datatype FrameArg = NoFrame | FrameNo(n: int) | FrameTime(t: string)

  /** `int(str_to_sec(t) * fps)`: a ValueError when `t` is not a time. */
  function TimeFrame(t: string, msToFrame: int -> int): (r: Result<int>)
    ensures r.Err? <==> Misc.StrToMs(t).Err?
    ensures r.Err? ==> r.error == ValueError
    ensures r.Ok? ==> r.value == msToFrame(Misc.StrToMs(t).value)
  {
    match Misc.StrToMs(t)
    case Err(e) => Err(e)
    case Ok(ms) => Ok(msToFrame(ms))
  }

  /** The start frame before the range check: 1 when absent, a time converted to a frame. */
  function GivenStart(a: FrameArg, msToFrame: int -> int): Result<int>
  {
    match a
    case NoFrame => Ok(1)
    case FrameNo(n) => Ok(n)
    case FrameTime(t) => TimeFrame(t, msToFrame)
  }

  /** The end frame before the range check: the frame count when absent. */
  function GivenEnd(a: FrameArg, frameCount: int, msToFrame: int -> int): Result<int>
  {
    match a
    case NoFrame => Ok(frameCount)
    case FrameNo(n) => Ok(n)
    case FrameTime(t) => TimeFrame(t, msToFrame)
  }

  /** The range check of a start frame: kept when in [1, frameCount), otherwise 1. */
  function CheckedStart(start: int, frameCount: int): int
  {
    if 1 <= start < frameCount then start else 1
  }

  /** The range check of an end frame: kept when in (1, frameCount], otherwise frameCount. */
  function CheckedEnd(end: int, frameCount: int): int
  {
    if 1 < end <= frameCount then end else frameCount
  }

  /** The normalised (start, end) pair that `open` leaves when the frame count is known, or the
      error of the first time setting that is not a time. */
  function Normalized(start: FrameArg, end: FrameArg, frameCount: int, msToFrame: int -> int): Result<(int, int)>
  {
    match GivenStart(start, msToFrame)
    case Err(e) => Err(e)
    case Ok(gs) =>
      match GivenEnd(end, frameCount, msToFrame)
      case Err(e) => Err(e)
      case Ok(ge) => Ok((CheckedStart(gs, frameCount), CheckedEnd(ge, frameCount)))
  }

  /** Normalising fails exactly when the start or the end is a string `str_to_sec` rejects, and
      then with a ValueError. */
  lemma NormalizedFails(start: FrameArg, end: FrameArg, frameCount: int, msToFrame: int -> int)
    ensures Normalized(start, end, frameCount, msToFrame).Err? <==>
      (start.FrameTime? && Misc.StrToMs(start.t).Err?) || (end.FrameTime? && Misc.StrToMs(end.t).Err?)
    ensures Normalized(start, end, frameCount, msToFrame).Err? ==>
      Normalized(start, end, frameCount, msToFrame).error == ValueError
  {
  }

  /** With a known frame count the normalised start lies in [1, frameCount) (it is 1 when the count
      is 1) and the normalised end in (1, frameCount] (it is 1 when the count is 1). A setting keeps
      its value exactly when it is in range or already equals its replacement; an out-of-range start
      becomes 1 and an out-of-range end becomes the frame count. */
  lemma NormalizedRange(start: FrameArg, end: FrameArg, frameCount: int, msToFrame: int -> int)
    requires frameCount > 0
    ensures var n := Normalized(start, end, frameCount, msToFrame);
      n.Ok? ==>
      var (s, e) := n.value;
      var (gs, ge) := (GivenStart(start, msToFrame).value, GivenEnd(end, frameCount, msToFrame).value);
      && 1 <= s && (frameCount > 1 ==> s < frameCount)
      && 1 <= e <= frameCount && (frameCount > 1 ==> 1 < e)
      && (s == gs <==> 1 <= gs < frameCount || gs == 1)
      && (!(1 <= gs < frameCount) ==> s == 1)
      && (e == ge <==> 1 < ge <= frameCount || ge == frameCount)
      && (!(1 < ge <= frameCount) ==> e == frameCount)
  {
  }

  /** Opening again with the normalised frames as the settings changes nothing. */
  lemma NormalizedIdempotent(start: FrameArg, end: FrameArg, frameCount: int, msToFrame: int -> int)
    requires frameCount > 0
    ensures var n := Normalized(start, end, frameCount, msToFrame);
      n.Ok? ==> Normalized(FrameNo(n.value.0), FrameNo(n.value.1), frameCount, msToFrame) == n
  {
  }

  /** The check does not order the two: a start of 5 and an end of 3 in a 10-frame video are both
      kept, so the start lies after the end. */
  lemma NormalizedUnordered(msToFrame: int -> int)
    ensures Normalized(FrameNo(5), FrameNo(3), 10, msToFrame) == Ok((5, 3))
  {
  }

  /** A start time of "1:x" is no time: `open` raises ValueError. */
  lemma NormalizedMalformedStart(msToFrame: int -> int)
    ensures Normalized(FrameTime("1:x"), NoFrame, 10, msToFrame) == Err(ValueError)
  {
    assert "1:x" == "1" + ":" + "x";
    Misc.StrToMsBadField("1", "x");
  }

  class FileVideoCapture<F> {
    /** `self.start_frame` and `self.end_frame`. */
    var startFrame: FrameArg
    var endFrame: FrameArg
    /** `self.transform`, applied to every frame returned. */
    const transform: Option<F -> F>
    /** `self.frame_count`, known once opened (negative or 0 when the capture cannot tell). */
    var frameCount: Option<int>
    /** The last position the capture was told to seek to (`cap.set(CAP_PROP_POS_FRAMES, ...)`). */
    var seek: Option<int>

    constructor (startFrame: FrameArg, endFrame: FrameArg, transform: Option<F -> F>)
      ensures this.startFrame == startFrame && this.endFrame == endFrame && this.transform == transform
      ensures frameCount.None? && seek.None?
    {
      this.startFrame := startFrame;
      this.endFrame := endFrame;
      this.transform := transform;
      frameCount := None;
      seek := None;
    }

    /** `open()`, given whether the capture opened, its frame count and how milliseconds become a
        frame at its frame rate. An IOError when it did not open, and then nothing changes. With a
        positive frame count the range is normalised and the capture seeks to the frame before the
        start, unless a time setting is not a time: then it raises ValueError, with the frame count
        already recorded, a time start already converted when only the end failed, and no seek.
        With no positive frame count the settings are left as given and no seek happens. */
    method Open(isOpened: bool, count: int, msToFrame: int -> int) returns (r: Result<FileVideoCapture<F>>)
      modifies this
      ensures !isOpened ==>
                r == Err(IOError) && startFrame == old(startFrame) && endFrame == old(endFrame)
                && frameCount == old(frameCount) && seek == old(seek)
      ensures isOpened ==> frameCount == Some(count)
      ensures isOpened && count > 0 && Normalized(old(startFrame), old(endFrame), count, msToFrame).Ok? ==>
                var (s, e) := Normalized(old(startFrame), old(endFrame), count, msToFrame).value;
                r == Ok(this) && startFrame == FrameNo(s) && endFrame == FrameNo(e) && seek == Some(s - 1)
      ensures isOpened && count > 0 && Normalized(old(startFrame), old(endFrame), count, msToFrame).Err? ==>
                r == Err(ValueError) && seek == old(seek) && endFrame == old(endFrame)
                && startFrame == (if GivenStart(old(startFrame), msToFrame).Ok?
                                  then FrameNo(GivenStart(old(startFrame), msToFrame).value) else old(startFrame))
      ensures isOpened && count <= 0 ==>
                r == Ok(this) && startFrame == old(startFrame) && endFrame == old(endFrame) && seek == old(seek)
    {
      if !isOpened {
        return Err(IOError);
      }
      frameCount := Some(count);
      if count > 0 {
        var err := FillStart(msToFrame);
        if err.Some? {
          return Err(err.value);
        }
        err := FillEnd(count, msToFrame);
        if err.Some? {
          return Err(err.value);
        }
        CheckRange(count);
      }
      r := Ok(this);
    }

    /** Lines 58-61 of `open()`: an absent start becomes 1 and a time string its frame. */
    method FillStart(msToFrame: int -> int) returns (err: Option<Error>)
      modifies this
      ensures GivenStart(old(startFrame), msToFrame).Ok? ==>
                err.None? && startFrame == FrameNo(GivenStart(old(startFrame), msToFrame).value)
      ensures GivenStart(old(startFrame), msToFrame).Err? ==>
                err == Some(ValueError) && startFrame == old(startFrame)
      ensures endFrame == old(endFrame) && frameCount == old(frameCount) && seek == old(seek)
    {
      err := None;
      if startFrame.NoFrame? {
        startFrame := FrameNo(1);
      } else if startFrame.FrameTime? {
        var f := TimeFrame(startFrame.t, msToFrame);
        if f.Err? {
          return Some(f.error);
        }
        startFrame := FrameNo(f.value);
      }
    }

    /** Lines 62-65 of `open()`: an absent end becomes the frame count and a time string its frame. */
    method FillEnd(count: int, msToFrame: int -> int) returns (err: Option<Error>)
      modifies this
      ensures GivenEnd(old(endFrame), count, msToFrame).Ok? ==>
                err.None? && endFrame == FrameNo(GivenEnd(old(endFrame), count, msToFrame).value)
      ensures GivenEnd(old(endFrame), count, msToFrame).Err? ==>
                err == Some(ValueError) && endFrame == old(endFrame)
      ensures startFrame == old(startFrame) && frameCount == old(frameCount) && seek == old(seek)
    {
      err := None;
      if endFrame.NoFrame? {
        endFrame := FrameNo(count);
      }
      if endFrame.FrameTime? {
        var f := TimeFrame(endFrame.t, msToFrame);
        if f.Err? {
          return Some(f.error);
        }
        endFrame := FrameNo(f.value);
      }
    }

    /** Lines 66-77 of `open()`: out-of-range frames are reset, then the capture seeks to the frame
        before the start. */
    method CheckRange(count: int)
      requires startFrame.FrameNo? && endFrame.FrameNo?
      modifies this
      ensures startFrame == FrameNo(CheckedStart(old(startFrame).n, count))
      ensures endFrame == FrameNo(CheckedEnd(old(endFrame).n, count))
      ensures seek == Some(startFrame.n - 1) && frameCount == old(frameCount)
    {
      if !(1 <= startFrame.n < count) {
        startFrame := FrameNo(1);
      }
      if !(1 < endFrame.n <= count) {
        endFrame := FrameNo(count);
      }
      seek := Some(startFrame.n - 1);
    }

    /** `read()` after `open()`, given what the capture's read reported: whether a frame was grabbed,
        the frame, and the capture position after the read. The (transformed) frame is returned iff
        it was grabbed and either the frame count is unknown (negative) or the position has not
        passed the end frame. Comparing the position with an end frame that is still absent or a
        string (possible only with a frame count of 0) is a TypeError. */
    method Read(grabbed: bool, frame: F, position: int) returns (r: Result<Option<F>>)
      requires frameCount.Some?
      ensures r.Err? <==> grabbed && frameCount.value >= 0 && !endFrame.FrameNo?
      ensures r.Err? ==> r.error == TypeError
      ensures r.Ok? && r.value.Some? <==>
                grabbed && (frameCount.value < 0 || (endFrame.FrameNo? && position <= endFrame.n))
      ensures r.Ok? && r.value.Some? ==>
                r.value.value == if transform.Some? then transform.value(frame) else frame
    {
      if !grabbed {
        return Ok(None);
      }
      if frameCount.value >= 0 && !endFrame.FrameNo? {
        return Err(TypeError);
      }
      if frameCount.value < 0 || position <= endFrame.n {
        var out := frame;
        if transform.Some? {
          out := transform.value(frame);
        }
        return Ok(Some(out));
      }
      r := Ok(None);
    }
  }
}
