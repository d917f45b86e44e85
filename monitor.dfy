/** The liveness monitor: one probe per iteration, a consecutive-failure counter,
    and writes to the stream-state cell that gates playback. The probe itself
    (a ping subprocess) is an input bool; the 30-second sleep and the endless
    loop become a method over a finite sequence of probe results. */
module Monitor {
  import opened Common

  const FAILURE_THRESHOLD: int := 3

  /** The counter and the value held by the stream-state cell ("streaming"). */
  datatype MonitorState = MonitorState(consecutiveFailures: int, streaming: bool)

  /** A write to the stream-state cell: START sends true, STOP sends false. */
  datatype Signal = Start | Stop

  /** The counter starts at 0 and the cell is created holding false. */
  const INITIAL: MonitorState := MonitorState(0, false)

  /** The effect of one probe: the state after it and the write it made, if any. */
  datatype Poll = Poll(next: MonitorState, sent: Option<Signal>)

  /** One iteration of the monitor loop, driven by the probe result. */
  function Step(s: MonitorState, isUp: bool): (p: Poll)
    // the cell changes only through a write, and each write is a real change
    ensures p.next.streaming != s.streaming <==> p.sent.Some?
    ensures p.sent == Some(Start) ==> !s.streaming && p.next.streaming
    ensures p.sent == Some(Stop) ==> s.streaming && !p.next.streaming
    // a successful probe leaves streaming on, with the counter cleared if it was positive
    ensures isUp ==> p.next.streaming && p.next.consecutiveFailures == if s.consecutiveFailures > 0 then 0 else s.consecutiveFailures
    // a failed probe while paused changes nothing
    ensures !isUp && !s.streaming ==> p == Poll(s, None)
    // a failed probe while streaming counts once, and stops streaming exactly at the threshold,
    // without clearing the counter
    ensures !isUp && s.streaming ==>
      p.next.consecutiveFailures == s.consecutiveFailures + 1 &&
      (p.next.streaming <==> p.next.consecutiveFailures < FAILURE_THRESHOLD)
  {
    if isUp then
      var failures := if s.consecutiveFailures > 0 then 0 else s.consecutiveFailures;
      if s.streaming then Poll(MonitorState(failures, true), None)
      else Poll(MonitorState(failures, true), Some(Start))
    else if s.streaming then
      var failures := s.consecutiveFailures + 1;
      if failures >= FAILURE_THRESHOLD then Poll(MonitorState(failures, false), Some(Stop))
      else Poll(MonitorState(failures, true), None)
    else
      Poll(s, None)
  }

  /** The state after a run of probes. */
  function Run(s: MonitorState, probes: seq<bool>): MonitorState
    decreases |probes|
  {
    if probes == [] then s else Run(Step(s, probes[0]).next, probes[1..])
  }

  /** What holds of every state the monitor can reach: the counter is between 0 and
      the threshold, and below it while streaming. */
  predicate Inv(s: MonitorState) {
    0 <= s.consecutiveFailures <= FAILURE_THRESHOLD &&
    (s.streaming ==> s.consecutiveFailures < FAILURE_THRESHOLD)
  }

  lemma StepPreservesInv(s: MonitorState, isUp: bool)
    requires Inv(s)
    ensures Inv(Step(s, isUp).next)
    ensures isUp ==> Step(s, isUp).next == MonitorState(0, true)
  {
  }

  lemma {:induction false} RunPreservesInv(s: MonitorState, probes: seq<bool>)
    requires Inv(s)
    ensures Inv(Run(s, probes))
    decreases |probes|
  {
    if probes != [] {
      StepPreservesInv(s, probes[0]);
      RunPreservesInv(Step(s, probes[0]).next, probes[1..]);
    }
  }

  /** From the initial state, every run of probes keeps the invariant (so the 32-bit
      counter never comes near overflow). */
  lemma ReachableStatesKeepInv(probes: seq<bool>)
    ensures Inv(Run(INITIAL, probes))
    ensures -0x8000_0000 <= Run(INITIAL, probes).consecutiveFailures < 0x8000_0000
  {
    RunPreservesInv(INITIAL, probes);
  }

  function Failures(k: nat): (probes: seq<bool>)
    ensures |probes| == k && forall i :: 0 <= i < k ==> !probes[i]
  {
    if k == 0 then [] else [false] + Failures(k - 1)
  }

  /** Starting streaming with counter c below the threshold, k failed probes in a row
      leave streaming on exactly while c + k stays below the threshold. */
  lemma {:induction false} ConsecutiveFailures(c: nat, k: nat)
    requires c < FAILURE_THRESHOLD
    ensures Run(MonitorState(c, true), Failures(k)).streaming <==> c + k < FAILURE_THRESHOLD
    ensures k <= FAILURE_THRESHOLD - c ==> Run(MonitorState(c, true), Failures(k)).consecutiveFailures == c + k
    decreases k
  {
    if k > 0 {
      var s' := Step(MonitorState(c, true), false).next;
      assert Failures(k)[1..] == Failures(k - 1);
      if c + 1 < FAILURE_THRESHOLD {
        ConsecutiveFailures(c + 1, k - 1);
      } else {
        assert s' == MonitorState(FAILURE_THRESHOLD, false);
        PausedIgnoresFailures(s', k - 1);
      }
    }
  }

  /** While paused, failed probes change nothing. */
  lemma {:induction false} PausedIgnoresFailures(s: MonitorState, k: nat)
    requires !s.streaming
    ensures Run(s, Failures(k)) == s
    decreases k
  {
    if k > 0 {
      assert Failures(k)[1..] == Failures(k - 1);
      PausedIgnoresFailures(s, k - 1);
    }
  }

  lemma ThreeFailuresStop()
    ensures Run(MonitorState(0, true), [false, false, false]) == MonitorState(3, false)
  {
  }

  lemma TwoFailuresThenSuccess()
    ensures Run(MonitorState(0, true), [false, false, true]) == MonitorState(0, true)
  {
  }

  /** The latest-value cell connecting monitor and player. */
  class StreamCell {
    var value: bool

    constructor (initial: bool)
      ensures value == initial
    {
      value := initial;
    }

    method Send(v: bool)
      modifies this
      ensures value == v
    {
      value := v;
    }
  }

  class LivenessMonitor {
    var consecutiveFailures: int
    const tx: StreamCell

    constructor (tx: StreamCell)
      ensures this.tx == tx && consecutiveFailures == 0
    {
      this.tx := tx;
      consecutiveFailures := 0;
    }

    function State(): MonitorState
      reads this, tx
    {
      MonitorState(consecutiveFailures, tx.value)
    }

    /** One loop iteration, given the probe's result. */
    method Probe(isUp: bool) returns (sent: Option<Signal>)
      modifies this, tx
      ensures State() == Step(old(State()), isUp).next
      ensures sent == Step(old(State()), isUp).sent
    {
      sent := None;
      if isUp {
        if consecutiveFailures > 0 {
          consecutiveFailures := 0;
        }
        if !tx.value {
          tx.Send(true);
          sent := Some(Start);
        }
      } else {
        if tx.value {
          consecutiveFailures := consecutiveFailures + 1;
          if consecutiveFailures >= FAILURE_THRESHOLD {
            tx.Send(false);
            sent := Some(Stop);
          }
        }
      }
    }

    /** The monitor loop over a finite run of probe results. */
    method RunLoop(probes: seq<bool>)
      modifies this, tx
      ensures State() == Run(old(State()), probes)
    {
      var i := 0;
      while i < |probes|
        invariant 0 <= i <= |probes|
        invariant Run(old(State()), probes) == Run(State(), probes[i..])
        decreases |probes| - i
      {
        assert probes[i..][1..] == probes[i + 1..];
        var _ := Probe(probes[i]);
        i := i + 1;
      }
    }
  }

  /** From startup (counter 0, cell false), the monitor's states are the model's. */
  method Startup(probes: seq<bool>) returns (m: LivenessMonitor)
    ensures Inv(m.State()) && m.State() == Run(INITIAL, probes)
  {
    var cell := new StreamCell(false);
    m := new LivenessMonitor(cell);
    m.RunLoop(probes);
    ReachableStatesKeepInv(probes);
  }
}
