/** `CaptureVideoPipe` of dvgutils/pipeline/capture_video_pipe.py: the pipeline source that numbers
    the frames of a video capture. The capture is abstract: the sequence of what its successive
    `read()` calls return, `None` once past the last of them. */
module CaptureVideoPipe {
  import opened Wrappers
  import opened Decimal

  /** The item the generator yields: `{"idx": idx, "name": f"{idx:06d}", "image": image}`. */
  datatype Record<F> = Record(idx: nat, name: string, image: F)

  function MakeRecord<F>(idx: nat, image: F): Record<F>
  {
    Record(idx, ZeroPadded(idx, 6), image)
  }

  /** A record's name is its index in decimal, zero-padded to at least six digits. */
  lemma RecordName<F>(idx: nat, image: F)
    ensures IsDigits(MakeRecord(idx, image).name) && Value(MakeRecord(idx, image).name) == idx
    ensures |MakeRecord(idx, image).name| == if idx < 1000000 then 6 else |Digits(idx)|
  {
    ZeroPaddedProperties(idx, 6);
    assert Pow10(6) == 1000000;
    if idx < 1000000 {
      DigitsFewer(idx, 6);
    } else {
      DigitsMore(idx, 6);
    }
  }

  /** What the i-th `read()` of the capture returns. */
  function ReadAt<F>(frames: seq<Option<F>>, i: nat): Option<F>
  {
    if i < |frames| then frames[i] else None
  }

  /** The records the generator yields when nothing stops it, numbering from `from`: one per frame,
      up to the first `None`. */
  function Yielded<F>(frames: seq<Option<F>>, from: nat): seq<Record<F>>
    decreases |frames|
  {
    if |frames| == 0 || frames[0].None? then []
    else [MakeRecord(from, frames[0].value)] + Yielded(frames[1..], from + 1)
  }

  /** How many frames come before the first `None`. */
  function FramesBeforeEnd<F>(frames: seq<Option<F>>): (n: nat)
    ensures n <= |frames|
    ensures forall i :: 0 <= i < n ==> frames[i].Some?
    ensures n < |frames| ==> frames[n].None?
    decreases |frames|
  {
    if |frames| == 0 || frames[0].None? then 0 else 1 + FramesBeforeEnd(frames[1..])
  }

  /** The generator yields exactly as many records as there are frames before the first `None`;
      it never yields the `None` itself. */
  lemma {:induction false} YieldedLength<F>(frames: seq<Option<F>>, from: nat)
    ensures |Yielded(frames, from)| == FramesBeforeEnd(frames)
    decreases |frames|
  {
    if |frames| > 0 && frames[0].Some? {
      YieldedLength(frames[1..], from + 1);
    }
  }

  /** Record k carries index from + k (no gaps), the name of that index padded to six digits, and
      the k-th frame read. */
  lemma {:induction false} YieldedAt<F>(frames: seq<Option<F>>, from: nat, k: nat)
    requires k < |Yielded(frames, from)|
    ensures k < |frames| && frames[k].Some?
    ensures Yielded(frames, from)[k] == MakeRecord(from + k, frames[k].value)
    decreases k
  {
    if k > 0 {
      YieldedAt(frames[1..], from + 1, k - 1);
    }
  }

  class CaptureVideoPipe<F> {
    /** What the capture's successive reads return. */
    const frames: seq<Option<F>>
    /** How many times the capture has been read. */
    var readCount: nat
    /** `self.stop`, set by `on_stop`. */
    var stop: bool
    /** The local `idx` of the generator in use. */
    var idx: nat
    /** Whether the generator has returned. */
    var finished: bool
    /** How many times the capture's `close` has been called. */
    var captureCloses: nat

    constructor (frames: seq<Option<F>>)
      ensures this.frames == frames
      ensures readCount == 0 && !stop && idx == 0 && !finished && captureCloses == 0
    {
      this.frames := frames;
      readCount := 0;
      stop := false;
      idx := 0;
      finished := false;
      captureCloses := 0;
    }

    /** `iter(pipe)`: a fresh `generator()` whose `idx` starts again at 0, while the capture keeps
        its read position and `stop` is left as it is. */
    method Iter()
      modifies this
      ensures idx == 0 && !finished
      ensures readCount == old(readCount) && stop == old(stop) && captureCloses == old(captureCloses)
    {
      idx := 0;
      finished := false;
    }

    /** `on_stop()`. */
    method OnStop()
      modifies this
      ensures stop
      ensures readCount == old(readCount) && idx == old(idx) && finished == old(finished)
      ensures captureCloses == old(captureCloses)
    {
      stop := true;
    }

    /** `close()`: closes the capture. */
    method Close()
      modifies this
      ensures captureCloses == old(captureCloses) + 1
      ensures readCount == old(readCount) && stop == old(stop) && idx == old(idx) && finished == old(finished)
    {
      captureCloses := captureCloses + 1;
    }

    /** One resumption of the generator: the next record, or None when the generator returns. Once
        `stop` is set the capture is not read again. */
    method Next() returns (r: Option<Record<F>>)
      modifies this
      ensures stop == old(stop) && captureCloses == old(captureCloses)
      ensures old(finished) || old(stop) ==> r.None? && finished && readCount == old(readCount) && idx == old(idx)
      ensures !old(finished) && !old(stop) ==> readCount == old(readCount) + 1
      ensures !old(finished) && !old(stop) && ReadAt(frames, old(readCount)).Some? ==>
                r == Some(MakeRecord(old(idx), ReadAt(frames, old(readCount)).value))
                && idx == old(idx) + 1 && !finished
      ensures !old(finished) && !old(stop) && ReadAt(frames, old(readCount)).None? ==>
                r.None? && finished && idx == old(idx)
    {
      if finished || stop {
        finished := true;
        return None;
      }
      var image := ReadAt(frames, readCount);
      readCount := readCount + 1;
      if image.Some? {
        r := Some(MakeRecord(idx, image.value));
        idx := idx + 1;
      } else {
        finished := true;
        r := None;
      }
    }

    /** Iterating the pipe to its end (`for data in pipe`), with no stop request in between: the
        records yielded are those of the frames still to be read, up to the first `None`. */
    method Drain() returns (out: seq<Record<F>>)
      requires !stop && !finished
      modifies this
      ensures out == Yielded(frames[Min(old(readCount), |frames|)..], old(idx))
      ensures finished && stop == old(stop)
    {
      ghost var all := Owed();
      out := [];
      var r := Advance();
      while r.Some?
        invariant !stop && (r.Some? <==> !finished)
        invariant r.Some? ==> all == out + [r.value] + Owed() && readCount <= |frames|
        invariant r.None? ==> all == out
        decreases |frames| + 1 - readCount
      {
        out := out + [r.value];
        r := Advance();
        assert r.Some? ==> out + [r.value] + Owed() == out + ([r.value] + Owed());
      }
    }

    /** The records the generator still owes when nothing stops it. */
    ghost function Owed(): seq<Record<F>>
      reads this
    {
      Yielded(frames[Min(readCount, |frames|)..], idx)
    }

    /** One resumption while the pipe runs: what was still owed before it is the record it gives,
        if any, followed by what is owed after it. */
    method Advance() returns (r: Option<Record<F>>)
      requires !stop && !finished
      modifies this
      ensures r.Some? ==> old(Owed()) == [r.value] + Owed() && readCount <= |frames|
      ensures r.None? ==> old(Owed()) == []
      ensures !stop && (r.Some? <==> !finished)
      ensures readCount == old(readCount) + 1
    {
      ghost var rc, ix := readCount, idx;
      r := Next();
      PendingStep(frames, rc, ix, r);
    }
  }

  /** What one resumption leaves owing: the records after the next read, and the record for it. */
  lemma PendingStep<F>(frames: seq<Option<F>>, rc: nat, ix: nat, r: Option<Record<F>>)
    requires ReadAt(frames, rc).Some? ==> r == Some(MakeRecord(ix, ReadAt(frames, rc).value))
    requires ReadAt(frames, rc).None? ==> r.None?
    ensures Yielded(frames[Min(rc, |frames|)..], ix) == Pending(r, frames[Min(rc + 1, |frames|)..], ix + 1)
    ensures r.Some? ==> rc < |frames|
  {
    YieldedUnfold(frames, rc, ix);
  }

  /** The records the generator still owes: the one just produced, if any, and those after it. */
  function Pending<F>(r: Option<Record<F>>, unread: seq<Option<F>>, idx: nat): seq<Record<F>>
  {
    if r.Some? then [r.value] + Yielded(unread, idx) else []
  }

  function Min(a: int, b: int): int { if a <= b then a else b }

  /** The records still to come, from the next read on: the one for the frame read next, if any,
      followed by the rest. */
  lemma YieldedUnfold<F>(frames: seq<Option<F>>, i: nat, from: nat)
    ensures Yielded(frames[Min(i, |frames|)..], from)
         == if ReadAt(frames, i).Some?
            then [MakeRecord(from, ReadAt(frames, i).value)] + Yielded(frames[Min(i + 1, |frames|)..], from + 1)
            else []
  {
    if i < |frames| {
      assert frames[i..][1..] == frames[Min(i + 1, |frames|)..];
    }
  }
}
