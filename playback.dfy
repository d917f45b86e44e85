/** The playback loop: request frames in order, hand each to the sink, count finished
    runs, wrap or stop at the end, abort on a frame error and halt when the stream
    state reads false. The sink, the stream-state reads and the sleep are outside the
    model; what each iteration observes of them is an input `Tick`, and the endless
    loop runs over a finite sequence of ticks. */
module Playback {
  import opened Common
  import opened Fseq

  /** The stream-state cell as the loop sees it at its stop check: the current value, or a
      closed channel (the monitor's sender dropped), in which case the check is skipped. */
  datatype CellRead = Current(streaming: bool) | SenderDropped

  /** What one iteration observes: whether the sink accepted the frame, and the cell. */
  datatype Tick = Tick(sinkOk: bool, cell: CellRead)

  datatype Outcome =
    | Finished                                  // looping off, last frame sent
    | Halted                                    // the stream state read false
    | Failed(frame: u32, error: FrameError)     // get_frame failed
    | HorizonReached                            // the given ticks ran out

  /** A playback: how it ended, the frame indices requested, the frames handed to the
      sink, and the completed-run counter. */
  datatype PlaybackRun = PlaybackRun(outcome: Outcome, requested: seq<u32>, delivered: seq<seq<byte>>, runs: nat)

  predicate HaltsAt(t: Tick) {
    t.cell == Current(false)
  }

  /** The cursor after frame n was sent: the next index, or 0 after the last frame. */
  function NextCursor(n: u32, frameCount: u32): u32 {
    if n + 1 >= frameCount then 0 else n + 1
  }

  /** Where the loop takes its frames from: get_frame on the opened file. */
  type FrameSource = u32 -> Result<seq<byte>, FrameError>

  function FramesOf(f: FseqFile, decompress: seq<byte> -> Option<seq<byte>>): FrameSource
    requires Valid(f)
  {
    n => Frame(f, n, decompress)
  }

  function Prepend(n: u32, frame: seq<byte>, r: PlaybackRun): PlaybackRun {
    PlaybackRun(r.outcome, [n] + r.requested, [frame] + r.delivered, r.runs)
  }

  /** Playback from tick i, cursor frameNum and run counter runs, over a sequence of
      frameCount frames taken from frames. */
  function PlayFrom(frames: FrameSource, frameCount: u32, loopEnabled: bool,
                    ticks: seq<Tick>, i: nat, frameNum: u32, runs: nat): PlaybackRun
    requires i <= |ticks|
    decreases |ticks| - i
  {
    if i == |ticks| then PlaybackRun(HorizonReached, [], [], runs)
    else match frames(frameNum)
      case Err(e) => PlaybackRun(Failed(frameNum, e), [frameNum], [], runs)
      case Ok(data) =>
        var runs' := if frameNum + 1 >= frameCount then runs + 1 else runs;
        if frameNum + 1 >= frameCount && !loopEnabled then PlaybackRun(Finished, [frameNum], [data], runs')
        else if HaltsAt(ticks[i]) then PlaybackRun(Halted, [frameNum], [data], runs')
        else Prepend(frameNum, data, PlayFrom(frames, frameCount, loopEnabled, ticks, i + 1, NextCursor(frameNum, frameCount), runs'))
  }

  /** A playback of a file from its start: cursor 0, no runs. */
  function Play(f: FseqFile, loopEnabled: bool, decompress: seq<byte> -> Option<seq<byte>>, ticks: seq<Tick>): PlaybackRun
    requires Valid(f)
  {
    PlayFrom(FramesOf(f, decompress), f.header.frameCount, loopEnabled, ticks, 0, 0, 0)
  }

  function Extend(requested: seq<u32>, delivered: seq<seq<byte>>, r: PlaybackRun): PlaybackRun {
    PlaybackRun(r.outcome, requested + r.requested, delivered + r.delivered, r.runs)
  }

  /** One step of playback after a frame was sent and no stop applied. */
  lemma PlayFromContinues(frames: FrameSource, frameCount: u32, loopEnabled: bool,
                          ticks: seq<Tick>, i: nat, frameNum: u32, runs: nat, data: seq<byte>)
    requires i < |ticks| && frames(frameNum) == Ok(data)
    requires !(frameNum + 1 >= frameCount && !loopEnabled) && !HaltsAt(ticks[i])
    ensures PlayFrom(frames, frameCount, loopEnabled, ticks, i, frameNum, runs)
         == Prepend(frameNum, data, PlayFrom(frames, frameCount, loopEnabled, ticks, i + 1, NextCursor(frameNum, frameCount),
                                             if frameNum + 1 >= frameCount then runs + 1 else runs))
  {
  }

  lemma ExtendPrepend(requested: seq<u32>, delivered: seq<seq<byte>>, n: u32, data: seq<byte>, r: PlaybackRun)
    ensures Extend(requested, delivered, Prepend(n, data, r)) == Extend(requested + [n], delivered + [data], r)
  {
    assert requested + ([n] + r.requested) == (requested + [n]) + r.requested;
    assert delivered + ([data] + r.delivered) == (delivered + [data]) + r.delivered;
  }

  /** run_playback_loop as written, over the given ticks. */
  method RunPlaybackLoop(f: FseqFile, loopEnabled: bool, decompress: seq<byte> -> Option<seq<byte>>, ticks: seq<Tick>)
    returns (run: PlaybackRun)
    requires Valid(f)
    ensures run == Play(f, loopEnabled, decompress, ticks)
  {
    var frameCount := FrameCount(f);
    var frameNum: u32 := 0;
    var sequenceRunCount: nat := 0;
    var requested: seq<u32> := [];
    var delivered: seq<seq<byte>> := [];
    ghost var frames := FramesOf(f, decompress);
    var i := 0;
    while i < |ticks|
      invariant 0 <= i <= |ticks|
      invariant Play(f, loopEnabled, decompress, ticks)
             == Extend(requested, delivered, PlayFrom(frames, frameCount, loopEnabled, ticks, i, frameNum, sequenceRunCount))
      decreases |ticks| - i
    {
      var frame := GetFrame(f, frameNum, decompress);
      assert frames(frameNum) == frame;
      if frame.Err? {
        return PlaybackRun(Failed(frameNum, frame.error), requested + [frameNum], delivered, sequenceRunCount);
      }
      // the frame goes to the sink; a failed write (ticks[i].sinkOk false) is only logged
      ghost var sent, runsBefore, requestedBefore, deliveredBefore := frameNum, sequenceRunCount, requested, delivered;
      requested := requested + [frameNum];
      delivered := delivered + [frame.value];
      frameNum := frameNum + 1;
      if frameNum >= frameCount {
        sequenceRunCount := sequenceRunCount + 1;
        if loopEnabled {
          frameNum := 0;
        } else {
          return PlaybackRun(Finished, requested, delivered, sequenceRunCount);
        }
      }
      if ticks[i].cell.Current? && !ticks[i].cell.streaming {
        return PlaybackRun(Halted, requested, delivered, sequenceRunCount);
      }
      assert frameNum == NextCursor(sent, frameCount);
      PlayFromContinues(frames, frameCount, loopEnabled, ticks, i, sent, runsBefore, frame.value);
      ExtendPrepend(requestedBefore, deliveredBefore, sent, frame.value,
                    PlayFrom(frames, frameCount, loopEnabled, ticks, i + 1, frameNum, sequenceRunCount));
      i := i + 1;
    }
    return PlaybackRun(HorizonReached, requested, delivered, sequenceRunCount);
  }

  // ---- Properties of playback ----

  /** Frames are requested in cursor order: the first at the starting cursor, each next
      one where the cursor moved after the previous, all inside the sequence when the
      cursor starts inside it; at most one per tick, none only when no tick is left, and
      one for every tick when the ticks run out. */
  lemma {:induction false} RequestOrder(frames: FrameSource, frameCount: u32, loopEnabled: bool,
                                        ticks: seq<Tick>, i: nat, frameNum: u32, runs: nat)
    requires i <= |ticks|
    ensures var r := PlayFrom(frames, frameCount, loopEnabled, ticks, i, frameNum, runs);
      |r.requested| <= |ticks| - i && (|r.requested| == 0 <==> i == |ticks|)
    ensures var r := PlayFrom(frames, frameCount, loopEnabled, ticks, i, frameNum, runs);
      r.outcome == HorizonReached ==> |r.requested| == |ticks| - i
    ensures i < |ticks| ==> PlayFrom(frames, frameCount, loopEnabled, ticks, i, frameNum, runs).requested[0] == frameNum
    ensures var r := PlayFrom(frames, frameCount, loopEnabled, ticks, i, frameNum, runs);
      forall k :: 0 <= k < |r.requested| - 1 ==> r.requested[k + 1] == NextCursor(r.requested[k], frameCount)
    ensures var r := PlayFrom(frames, frameCount, loopEnabled, ticks, i, frameNum, runs);
      frameNum < frameCount ==> forall k :: 0 <= k < |r.requested| ==> r.requested[k] < frameCount
    decreases |ticks| - i
  {
    if i < |ticks| && frames(frameNum).Ok? {
      var runs' := if frameNum + 1 >= frameCount then runs + 1 else runs;
      if !(frameNum + 1 >= frameCount && !loopEnabled) && !HaltsAt(ticks[i]) {
        var next := NextCursor(frameNum, frameCount);
        var rest := PlayFrom(frames, frameCount, loopEnabled, ticks, i + 1, next, runs');
        var r := PlayFrom(frames, frameCount, loopEnabled, ticks, i, frameNum, runs);
        RequestOrder(frames, frameCount, loopEnabled, ticks, i + 1, next, runs');
        PlayFromContinues(frames, frameCount, loopEnabled, ticks, i, frameNum, runs, frames(frameNum).value);
        assert r.outcome == rest.outcome && r.requested == [frameNum] + rest.requested;
        forall k | 0 <= k < |r.requested| - 1
          ensures r.requested[k + 1] == NextCursor(r.requested[k], frameCount)
        {
          if k > 0 {
            assert r.requested[k] == rest.requested[k - 1] && r.requested[k + 1] == rest.requested[k];
          }
        }
        if frameNum < frameCount {
          forall k | 0 <= k < |r.requested|
            ensures r.requested[k] < frameCount
          {
            if k > 0 {
              assert r.requested[k] == rest.requested[k - 1];
            }
          }
        }
      }
    }
  }

  /** The sink receives, in order, the data of every requested frame except a failed
      one, which can only be the last request; a failure is the source's own error. */
  lemma {:induction false} Delivery(frames: FrameSource, frameCount: u32, loopEnabled: bool,
                                    ticks: seq<Tick>, i: nat, frameNum: u32, runs: nat)
    requires i <= |ticks|
    ensures var r := PlayFrom(frames, frameCount, loopEnabled, ticks, i, frameNum, runs);
      |r.delivered| == (if r.outcome.Failed? then |r.requested| - 1 else |r.requested|)
    ensures var r := PlayFrom(frames, frameCount, loopEnabled, ticks, i, frameNum, runs);
      forall k :: 0 <= k < |r.delivered| ==> frames(r.requested[k]) == Ok(r.delivered[k])
    ensures var r := PlayFrom(frames, frameCount, loopEnabled, ticks, i, frameNum, runs);
      r.outcome.Failed? ==>
        |r.requested| > 0 && r.requested[|r.requested| - 1] == r.outcome.frame && frames(r.outcome.frame) == Err(r.outcome.error)
    decreases |ticks| - i
  {
    if i < |ticks| && frames(frameNum).Ok? {
      var runs' := if frameNum + 1 >= frameCount then runs + 1 else runs;
      if !(frameNum + 1 >= frameCount && !loopEnabled) && !HaltsAt(ticks[i]) {
        var next := NextCursor(frameNum, frameCount);
        var rest := PlayFrom(frames, frameCount, loopEnabled, ticks, i + 1, next, runs');
        var r := PlayFrom(frames, frameCount, loopEnabled, ticks, i, frameNum, runs);
        Delivery(frames, frameCount, loopEnabled, ticks, i + 1, next, runs');
        PlayFromContinues(frames, frameCount, loopEnabled, ticks, i, frameNum, runs, frames(frameNum).value);
        assert r.outcome == rest.outcome && r.requested == [frameNum] + rest.requested
            && r.delivered == [frames(frameNum).value] + rest.delivered;
        forall k | 0 <= k < |r.delivered|
          ensures frames(r.requested[k]) == Ok(r.delivered[k])
        {
          if k > 0 {
            assert r.requested[k] == rest.requested[k - 1] && r.delivered[k] == rest.delivered[k - 1];
          }
        }
      }
    }
  }

  /** Playback goes on past a frame only when that frame was not the last one of a
      non-looping sequence and its tick did not read the stream state as false; it
      finishes only with looping off, right after the last frame, and it halts only at
      a tick that read false. */
  lemma {:induction false} StopConditions(frames: FrameSource, frameCount: u32, loopEnabled: bool,
                                          ticks: seq<Tick>, i: nat, frameNum: u32, runs: nat)
    requires i <= |ticks|
    ensures |PlayFrom(frames, frameCount, loopEnabled, ticks, i, frameNum, runs).requested| <= |ticks| - i
    ensures var r := PlayFrom(frames, frameCount, loopEnabled, ticks, i, frameNum, runs);
      forall j :: i <= j < i + |r.requested| - 1 ==> !HaltsAt(ticks[j])
    ensures var r := PlayFrom(frames, frameCount, loopEnabled, ticks, i, frameNum, runs);
      forall k :: 0 <= k < |r.requested| - 1 ==> !(r.requested[k] + 1 >= frameCount && !loopEnabled)
    ensures var r := PlayFrom(frames, frameCount, loopEnabled, ticks, i, frameNum, runs);
      r.outcome == Finished ==> !loopEnabled && |r.requested| > 0 && r.requested[|r.requested| - 1] + 1 >= frameCount
    ensures var r := PlayFrom(frames, frameCount, loopEnabled, ticks, i, frameNum, runs);
      r.outcome == Halted ==> |r.requested| > 0 && HaltsAt(ticks[i + |r.requested| - 1])
    decreases |ticks| - i
  {
    if i < |ticks| && frames(frameNum).Ok? {
      var runs' := if frameNum + 1 >= frameCount then runs + 1 else runs;
      if !(frameNum + 1 >= frameCount && !loopEnabled) && !HaltsAt(ticks[i]) {
        var next := NextCursor(frameNum, frameCount);
        var rest := PlayFrom(frames, frameCount, loopEnabled, ticks, i + 1, next, runs');
        var r := PlayFrom(frames, frameCount, loopEnabled, ticks, i, frameNum, runs);
        StopConditions(frames, frameCount, loopEnabled, ticks, i + 1, next, runs');
        PlayFromContinues(frames, frameCount, loopEnabled, ticks, i, frameNum, runs, frames(frameNum).value);
        assert r.outcome == rest.outcome && r.requested == [frameNum] + rest.requested;
        forall k | 0 <= k < |r.requested| - 1
          ensures !(r.requested[k] + 1 >= frameCount && !loopEnabled)
        {
          if k > 0 {
            assert r.requested[k] == rest.requested[k - 1];
          }
        }
        assert r.outcome == Halted ==> ticks[i + |r.requested| - 1] == ticks[(i + 1) + |rest.requested| - 1];
      }
    }
  }

  /** A playback with looping on never finishes on its own. */
  lemma LoopingNeverFinishes(frames: FrameSource, frameCount: u32, ticks: seq<Tick>, i: nat, frameNum: u32, runs: nat)
    requires i <= |ticks|
    ensures PlayFrom(frames, frameCount, true, ticks, i, frameNum, runs).outcome != Finished
  {
    StopConditions(frames, frameCount, true, ticks, i, frameNum, runs);
  }

  /** The last frame of a non-looping sequence ends playback even at a tick that reads
      the stream state as false: the stop check comes after the end check. */
  lemma FinishSkipsStopCheck(frames: FrameSource, frameCount: u32, ticks: seq<Tick>, i: nat, runs: nat, data: seq<byte>)
    requires i < |ticks| && 0 < frameCount && frames(frameCount - 1) == Ok(data)
    ensures PlayFrom(frames, frameCount, false, ticks, i, frameCount - 1, runs)
         == PlaybackRun(Finished, [frameCount - 1], [data], runs + 1)
  {
  }

  /** Frames in w full passes over a sequence of c frames. */
  function Laps(w: nat, c: nat): nat {
    if w == 0 then 0 else c + Laps(w - 1, c)
  }

  lemma {:induction false} LapsIsProduct(w: nat, c: nat)
    ensures Laps(w, c) == w * c
  {
    if w > 0 {
      LapsIsProduct(w - 1, c);
      assert w * c == (w - 1) * c + c;
    }
  }

  /** The run counter counts the passes completed: w passes are done exactly when the
      frames sent, counted from the start of the current pass, fill w passes but not
      w + 1 (so w is (frameNum + |delivered|) / frameCount, by LapsIsProduct). */
  lemma {:induction false} RunCount(frames: FrameSource, frameCount: u32, loopEnabled: bool,
                                    ticks: seq<Tick>, i: nat, frameNum: u32, runs: nat)
    requires i <= |ticks| && frameNum < frameCount
    ensures runs <= PlayFrom(frames, frameCount, loopEnabled, ticks, i, frameNum, runs).runs
    ensures var r := PlayFrom(frames, frameCount, loopEnabled, ticks, i, frameNum, runs);
      Laps(r.runs - runs, frameCount) <= frameNum + |r.delivered| < Laps(r.runs - runs + 1, frameCount)
    decreases |ticks| - i
  {
    var r := PlayFrom(frames, frameCount, loopEnabled, ticks, i, frameNum, runs);
    if i < |ticks| && frames(frameNum).Ok? {
      var wrap := frameNum + 1 >= frameCount;
      var runs' := if wrap then runs + 1 else runs;
      if !(wrap && !loopEnabled) && !HaltsAt(ticks[i]) {
        var next := NextCursor(frameNum, frameCount);
        var rest := PlayFrom(frames, frameCount, loopEnabled, ticks, i + 1, next, runs');
        RunCount(frames, frameCount, loopEnabled, ticks, i + 1, next, runs');
        PlayFromContinues(frames, frameCount, loopEnabled, ticks, i, frameNum, runs, frames(frameNum).value);
        var w := rest.runs - runs';
        assert |r.delivered| == 1 + |rest.delivered| && r.runs == rest.runs;
        if wrap {
          assert r.runs - runs == w + 1;
          assert Laps(w + 1, frameCount) == frameCount + Laps(w, frameCount);
          assert Laps(w + 2, frameCount) == frameCount + Laps(w + 1, frameCount);
        } else {
          assert r.runs - runs == w;
        }
      } else if wrap {
        assert Laps(2, frameCount) == frameCount + Laps(1, frameCount);
      }
    }
  }

  /** Without looping, a playback that finishes has requested every frame from the
      cursor to the end of the sequence, once each and in order. */
  lemma {:induction false} FinishedPlaysToEnd(frames: FrameSource, frameCount: u32,
                                              ticks: seq<Tick>, i: nat, frameNum: u32, runs: nat)
    requires i <= |ticks| && frameNum < frameCount
    requires PlayFrom(frames, frameCount, false, ticks, i, frameNum, runs).outcome == Finished
    ensures var r := PlayFrom(frames, frameCount, false, ticks, i, frameNum, runs);
      |r.requested| == frameCount - frameNum &&
      (forall k :: 0 <= k < |r.requested| ==> r.requested[k] == frameNum + k) &&
      r.runs == runs + 1
    decreases |ticks| - i
  {
    var r := PlayFrom(frames, frameCount, false, ticks, i, frameNum, runs);
    if frameNum + 1 < frameCount && !HaltsAt(ticks[i]) {
      FinishedPlaysToEnd(frames, frameCount, ticks, i + 1, frameNum + 1, runs);
      var rest := PlayFrom(frames, frameCount, false, ticks, i + 1, frameNum + 1, runs);
      assert r == Prepend(frameNum, frames(frameNum).value, rest);
      forall k | 0 <= k < |r.requested|
        ensures r.requested[k] == frameNum + k
      {
        if k > 0 {
          assert r.requested[k] == rest.requested[k - 1];
        }
      }
    }
  }

  /** Whether the sink accepted a frame changes nothing: a failed write is only logged. */
  lemma {:induction false} SinkResultIgnored(frames: FrameSource, frameCount: u32, loopEnabled: bool,
                                             ticks: seq<Tick>, ticks': seq<Tick>, i: nat, frameNum: u32, runs: nat)
    requires i <= |ticks| == |ticks'|
    requires forall j :: 0 <= j < |ticks| ==> ticks[j].cell == ticks'[j].cell
    ensures PlayFrom(frames, frameCount, loopEnabled, ticks, i, frameNum, runs)
         == PlayFrom(frames, frameCount, loopEnabled, ticks', i, frameNum, runs)
    decreases |ticks| - i
  {
    if i < |ticks| && frames(frameNum).Ok? {
      var runs' := if frameNum + 1 >= frameCount then runs + 1 else runs;
      SinkResultIgnored(frames, frameCount, loopEnabled, ticks, ticks', i + 1, NextCursor(frameNum, frameCount), runs');
    }
  }

  // ---- Playback of a file ----

  /** Every frame the loop sends is the file's frame at the requested index, a full
      frame of the channel count, from inside the sequence; the first request is frame 0. */
  lemma PlaySendsFileFrames(f: FseqFile, loopEnabled: bool, decompress: seq<byte> -> Option<seq<byte>>, ticks: seq<Tick>)
    requires Valid(f)
    ensures |ticks| > 0 ==> Play(f, loopEnabled, decompress, ticks).requested[0] == 0
    ensures |Play(f, loopEnabled, decompress, ticks).delivered| <= |Play(f, loopEnabled, decompress, ticks).requested|
    ensures var r := Play(f, loopEnabled, decompress, ticks);
      forall k :: 0 <= k < |r.delivered| ==>
        r.requested[k] < f.header.frameCount &&
        Frame(f, r.requested[k], decompress) == Ok(r.delivered[k]) &&
        |r.delivered[k]| == f.header.channelCount
    ensures var r := Play(f, loopEnabled, decompress, ticks);
      forall k :: 1 <= k < |r.requested| ==> r.requested[k] < f.header.frameCount
  {
    var frames := FramesOf(f, decompress);
    RequestOrder(frames, f.header.frameCount, loopEnabled, ticks, 0, 0, 0);
    Delivery(frames, f.header.frameCount, loopEnabled, ticks, 0, 0, 0);
    var r := Play(f, loopEnabled, decompress, ticks);
    if f.header.frameCount == 0 && |ticks| > 0 {
      EmptySequenceFails(f, loopEnabled, decompress, ticks);
    }
    forall k | 0 <= k < |r.delivered|
      ensures r.requested[k] < f.header.frameCount && Frame(f, r.requested[k], decompress) == Ok(r.delivered[k])
    {
      assert frames(r.requested[k]) == Ok(r.delivered[k]);
    }
  }

  /** A file with no frames fails on the very first request. */
  lemma EmptySequenceFails(f: FseqFile, loopEnabled: bool, decompress: seq<byte> -> Option<seq<byte>>, ticks: seq<Tick>)
    requires Valid(f) && f.header.frameCount == 0 && |ticks| > 0
    ensures Play(f, loopEnabled, decompress, ticks) == PlaybackRun(Failed(0, FrameOutOfRange), [0], [], 0)
  {
    assert FramesOf(f, decompress)(0) == Err(FrameOutOfRange);
  }

  /** Without looping, a playback that finishes has sent each frame of the file once, in
      order, and counted one run. */
  lemma SinglePass(f: FseqFile, decompress: seq<byte> -> Option<seq<byte>>, ticks: seq<Tick>)
    requires Valid(f) && Play(f, false, decompress, ticks).outcome == Finished
    ensures var r := Play(f, false, decompress, ticks);
      |r.requested| == |r.delivered| == f.header.frameCount && r.runs == 1 &&
      forall k :: 0 <= k < |r.requested| ==> r.requested[k] == k
  {
    var frames := FramesOf(f, decompress);
    Delivery(frames, f.header.frameCount, false, ticks, 0, 0, 0);
    if f.header.frameCount == 0 {
      EmptySequenceFails(f, false, decompress, ticks);
    } else {
      FinishedPlaysToEnd(frames, f.header.frameCount, ticks, 0, 0, 0);
    }
  }

  /** From the start of a file, the run counter is the number of full passes over its
      frames that the frames sent make up. */
  lemma PlayRunCount(f: FseqFile, loopEnabled: bool, decompress: seq<byte> -> Option<seq<byte>>, ticks: seq<Tick>)
    requires Valid(f) && f.header.frameCount > 0
    ensures var r := Play(f, loopEnabled, decompress, ticks);
      Laps(r.runs, f.header.frameCount) <= |r.delivered| < Laps(r.runs + 1, f.header.frameCount)
    ensures var r := Play(f, loopEnabled, decompress, ticks);
      r.runs * f.header.frameCount <= |r.delivered| < (r.runs + 1) * f.header.frameCount
  {
    var r := Play(f, loopEnabled, decompress, ticks);
    RunCount(FramesOf(f, decompress), f.header.frameCount, loopEnabled, ticks, 0, 0, 0);
    LapsIsProduct(r.runs, f.header.frameCount);
    LapsIsProduct(r.runs + 1, f.header.frameCount);
  }
}
