/**
  The Snowflake generator as a state machine over an immutable state
  `(machineId, sequence, lastTimestamp)`. The clock is not read here: each
  call to `Generate` receives the reading taken on entry and, for the case
  where the per-millisecond sequence wraps, the readings the busy-wait
  would observe afterwards.
*/
module SnowflakeGenerator {
  import opened Wrappers
  import opened IdLayout

  datatype Error =
    | InvalidMachineId     // construction with a machine ID outside [0, MaxMachineId]
    | ClockMovedBackwards  // a reading earlier than the last observed one

  /** Sentinel for "no identifier generated yet". */
  const NeverGenerated: int := -1

  datatype Generator = Generator(machineId: MachineId, sequence: int, lastTimestamp: int)

  /** The state invariant every constructed generator keeps. */
  predicate Valid(g: Generator) {
    InSequenceRange(g.sequence)
  }

  /** Construction validates the machine ID and starts with no timestamp observed. */
  function NewGenerator(machineId: int): (r: Result<Generator, Error>)
    ensures r.Failure? <==> machineId < 0 || MaxMachineId < machineId
    ensures r.Failure? ==> r.error == InvalidMachineId
    ensures r.Success? ==> r.value.machineId == machineId
    ensures r.Success? ==> r.value.sequence == 0 && r.value.lastTimestamp == NeverGenerated
    ensures r.Success? ==> Valid(r.value)
  {
    if machineId < 0 || machineId > MaxMachineId then Failure(InvalidMachineId)
    else Success(Generator(machineId, 0, NeverGenerated))
  }

  /** The generator built with the default machine ID 0. */
  function DefaultGenerator(): (g: Generator)
    ensures NewGenerator(0) == Success(g)
  {
    Generator(0, 0, NeverGenerated)
  }

  // ---------------------------------------------------------------------------
  // Busy-wait for a later millisecond
  // ---------------------------------------------------------------------------

  /** Some reading of the clock is strictly later than `last`. */
  predicate ClockPasses(last: int, readings: seq<int>) {
    exists i :: 0 <= i < |readings| && readings[i] > last
  }

  /** How many readings the busy-wait discards before it sees one later than `last`. */
  function PollsBeforeLater(last: int, readings: seq<int>): (i: nat)
    requires ClockPasses(last, readings)
    ensures i < |readings| && readings[i] > last
    ensures forall j :: 0 <= j < i ==> readings[j] <= last
  {
    if readings[0] > last then 0
    else
      assert ClockPasses(last, readings[1..]) by {
        var k :| 0 <= k < |readings| && readings[k] > last;
        assert readings[1..][k - 1] == readings[k];
      }
      1 + PollsBeforeLater(last, readings[1..])
  }

  /** The first reading strictly later than `last`: what the busy-wait returns. */
  function WaitNextMillis(last: int, readings: seq<int>): (t: int)
    requires ClockPasses(last, readings)
    ensures t > last
    ensures exists i :: 0 <= i < |readings| && readings[i] == t
                        && forall j :: 0 <= j < i ==> readings[j] <= last
  {
    var i := PollsBeforeLater(last, readings);
    readings[i]
  }

  // ---------------------------------------------------------------------------
  // One call to generate an identifier
  // ---------------------------------------------------------------------------

  /** `(sequence + 1) & MaxSequence`: the successor modulo 2^12, also for an out-of-range sequence. */
  function NextSequence(sequence: int): (s: int)
    ensures InSequenceRange(s)
    ensures 0 <= sequence < MaxSequence ==> s == sequence + 1
    ensures sequence == MaxSequence ==> s == 0
  {
    (sequence + 1) % (MaxSequence + 1)
  }

  /** The reading repeats the last millisecond and the sequence is exhausted, so the call must wait. */
  predicate Wraps(g: Generator, now: int) {
    now == g.lastTimestamp && NextSequence(g.sequence) == 0
  }

  /** The busy-wait, if this call needs it, eventually sees a later millisecond. */
  predicate WaitEnds(g: Generator, now: int, wait: seq<int>) {
    Wraps(g, now) ==> ClockPasses(g.lastTimestamp, wait)
  }

  /** The state after a call and what the call returned. */
  datatype Step = Step(next: Generator, result: Result<int, Error>)

  /**
    One call: `now` is the reading taken on entry, `wait` the readings the
    busy-wait takes if the sequence wraps. A failing call changes nothing.
  */
  function Generate(g: Generator, now: int, wait: seq<int>): (st: Step)
    requires WaitEnds(g, now, wait)
    ensures st.result.Failure? <==> now < g.lastTimestamp
    ensures st.result.Failure? ==> st.result.error == ClockMovedBackwards && st.next == g
    ensures st.result.Success? ==>
              && st.next.machineId == g.machineId
              && Valid(st.next)
              && g.lastTimestamp <= now <= st.next.lastTimestamp
              && st.result.value == Encode(st.next.lastTimestamp, g.machineId, st.next.sequence)
    ensures now > g.lastTimestamp ==>
              st.next.sequence == 0 && st.next.lastTimestamp == now
    ensures now == g.lastTimestamp && !Wraps(g, now) ==>
              st.next.sequence == NextSequence(g.sequence) && st.next.lastTimestamp == now
    ensures now == g.lastTimestamp && 0 <= g.sequence < MaxSequence ==>
              st.next.sequence == g.sequence + 1 && st.next.lastTimestamp == now
    ensures Wraps(g, now) ==>
              st.next.sequence == 0 && st.next.lastTimestamp > g.lastTimestamp
              && st.next.lastTimestamp == WaitNextMillis(g.lastTimestamp, wait)
  {
    if now < g.lastTimestamp then
      Step(g, Failure(ClockMovedBackwards))
    else
      var sequence := if now == g.lastTimestamp then NextSequence(g.sequence) else 0;
      var timestamp :=
        if now == g.lastTimestamp && sequence == 0 then WaitNextMillis(g.lastTimestamp, wait)
        else now;
      Step(Generator(g.machineId, sequence, timestamp),
           Success(Encode(timestamp, g.machineId, sequence)))
  }

  /** A successful call emits an identifier above the one the previous call emitted. */
  lemma GenerateIncreases(g: Generator, now: int, wait: seq<int>)
    requires Valid(g) && WaitEnds(g, now, wait)
    requires Generate(g, now, wait).result.Success?
    ensures Generate(g, now, wait).result.value > Encode(g.lastTimestamp, g.machineId, g.sequence)
  {
    var st := Generate(g, now, wait);
    EncodeOrder(g.lastTimestamp, g.machineId, g.sequence,
                st.next.lastTimestamp, g.machineId, st.next.sequence);
  }

  /** Two successive successful calls on one generator return strictly increasing identifiers. */
  lemma SuccessiveIdsIncrease(g: Generator, now1: int, wait1: seq<int>, now2: int, wait2: seq<int>)
    requires WaitEnds(g, now1, wait1)
    requires Generate(g, now1, wait1).result.Success?
    requires WaitEnds(Generate(g, now1, wait1).next, now2, wait2)
    requires Generate(Generate(g, now1, wait1).next, now2, wait2).result.Success?
    ensures Generate(g, now1, wait1).result.value
          < Generate(Generate(g, now1, wait1).next, now2, wait2).result.value
  {
    GenerateIncreases(Generate(g, now1, wait1).next, now2, wait2);
  }

  /**
    Decoding an emitted identifier recovers the generator's machine ID, the
    timestamp now recorded as last observed (never earlier than the entry
    reading) and the sequence now held.
  */
  lemma ParseGenerated(g: Generator, now: int, wait: seq<int>)
    requires WaitEnds(g, now, wait)
    requires Generate(g, now, wait).result.Success?
    ensures var st := Generate(g, now, wait);
            var p := ParseId(st.result.value);
            && p.machineId == g.machineId
            && p.timestamp == st.next.lastTimestamp >= now
            && p.sequence == st.next.sequence
  {
    var st := Generate(g, now, wait);
    ParseEncode(st.next.lastTimestamp, g.machineId, st.next.sequence);
  }

  /** Generators with different machine IDs never emit the same identifier, whatever their clocks read. */
  lemma DistinctMachinesDistinctIds(g1: Generator, now1: int, wait1: seq<int>,
                                    g2: Generator, now2: int, wait2: seq<int>)
    requires g1.machineId != g2.machineId
    requires WaitEnds(g1, now1, wait1) && Generate(g1, now1, wait1).result.Success?
    requires WaitEnds(g2, now2, wait2) && Generate(g2, now2, wait2).result.Success?
    ensures Generate(g1, now1, wait1).result.value != Generate(g2, now2, wait2).result.value
  {
    ParseGenerated(g1, now1, wait1);
    ParseGenerated(g2, now2, wait2);
  }

  /**
    Sequence exhaustion within one millisecond: from sequence 4094 at
    timestamp `t`, a call at `t` emits sequence 4095, and the next call at `t`
    waits for `t + 1` and emits sequence 0 with a later timestamp.
  */
  lemma SequenceOverflowExample(t: int)
    ensures ClockPasses(t, [t + 1])
    ensures var g := Generator(1, MaxSequence - 1, t);
            var st1 := Generate(g, t, []);
            var st2 := Generate(st1.next, t, [t + 1]);
            && st1.result.Success? && st2.result.Success?
            && ParseId(st1.result.value).sequence == MaxSequence
            && ParseId(st2.result.value).sequence == 0
            && ParseId(st2.result.value).timestamp == t + 1
            && st1.result.value < st2.result.value
  {
    var g := Generator(1, MaxSequence - 1, t);
    var st1 := Generate(g, t, []);
    assert ClockPasses(t, [t + 1]) by { assert [t + 1][0] > t; }
    ParseGenerated(g, t, []);
    ParseGenerated(st1.next, t, [t + 1]);
    GenerateIncreases(st1.next, t, [t + 1]);
  }

  // ---------------------------------------------------------------------------
  // Successive calls on one instance
  // ---------------------------------------------------------------------------

  /** The clock readings of one call: the entry reading and the readings a busy-wait would take. */
  datatype Tick = Tick(now: int, wait: seq<int>)

  /** The clock eventually shows a millisecond later than the entry reading. */
  predicate Advances(tick: Tick) {
    ClockPasses(tick.now, tick.wait)
  }

  /** Where a series of calls left the generator, what they emitted, and the error that stopped them, if any. */
  datatype RunOutcome = RunOutcome(last: Generator, ids: seq<int>, failure: Option<Error>)

  /**
    Successive calls of `Generate` on one generator, one per tick, stopping
    at the first failure. A failure is a clock regression against the state
    the earlier calls left behind; the machine ID never changes and the last
    timestamp never decreases.
  */
  function Run(g: Generator, ticks: seq<Tick>): (r: RunOutcome)
    requires forall k :: 0 <= k < |ticks| ==> Advances(ticks[k])
    ensures |r.ids| <= |ticks|
    ensures r.failure.None? ==> |r.ids| == |ticks|
    ensures r.failure.Some? ==>
              && |r.ids| < |ticks|
              && r.failure.value == ClockMovedBackwards
              && ticks[|r.ids|].now < r.last.lastTimestamp
    ensures r.last.machineId == g.machineId
    ensures r.last.lastTimestamp >= g.lastTimestamp
    ensures |r.ids| == 0 ==> r.last == g
    ensures |r.ids| > 0 ==> Valid(r.last)
    decreases |ticks|
  {
    if |ticks| == 0 then RunOutcome(g, [], None)
    else
      var tick := ticks[0];
      assert Advances(tick);
      var st := Generate(g, tick.now, tick.wait);
      if st.result.Failure? then RunOutcome(g, [], Some(st.result.error))
      else
        var rest := Run(st.next, ticks[1..]);
        RunOutcome(rest.last, [st.result.value] + rest.ids, rest.failure)
  }

  predicate StrictlyIncreasing(ids: seq<int>) {
    forall i, j :: 0 <= i < j < |ids| ==> ids[i] < ids[j]
  }

  predicate Distinct(ids: seq<int>) {
    forall i, j :: 0 <= i < |ids| && 0 <= j < |ids| && i != j ==> ids[i] != ids[j]
  }

  predicate AllAbove(ids: seq<int>, bound: int) {
    forall i :: 0 <= i < |ids| ==> ids[i] > bound
  }

  /** Every identifier decodes to machine ID `m`. */
  predicate AllOnMachine(ids: seq<int>, m: MachineId) {
    forall i :: 0 <= i < |ids| ==> ParseId(ids[i]).machineId == m
  }

  /** `Run` over at least one tick: the first call, then the series over the remaining ticks. */
  lemma RunUnfold(g: Generator, ticks: seq<Tick>)
    requires |ticks| > 0
    requires forall k :: 0 <= k < |ticks| ==> Advances(ticks[k])
    ensures Advances(ticks[0])
    ensures var st := Generate(g, ticks[0].now, ticks[0].wait);
            && (st.result.Failure? ==> Run(g, ticks).ids == [])
            && (st.result.Success? ==> Run(g, ticks) == Prepend([st.result.value], Run(st.next, ticks[1..])))
  {
    assert Advances(ticks[0]);
  }

  /** The last identifier of a series of calls is the packing of the state the series leaves behind. */
  lemma {:induction false} RunLastId(g: Generator, ticks: seq<Tick>)
    requires forall k :: 0 <= k < |ticks| ==> Advances(ticks[k])
    ensures var r := Run(g, ticks);
            |r.ids| > 0 ==> r.ids[|r.ids| - 1] == Encode(r.last.lastTimestamp, r.last.machineId, r.last.sequence)
    decreases |ticks|
  {
    if |ticks| > 0 {
      RunUnfold(g, ticks);
      var st := Generate(g, ticks[0].now, ticks[0].wait);
      if st.result.Success? {
        RunLastId(st.next, ticks[1..]);
      }
    }
  }

  /** From a state satisfying the invariant, a series of calls emits only identifiers above the packing of that state. */
  lemma {:induction false} RunIdsAbove(g: Generator, ticks: seq<Tick>)
    requires forall k :: 0 <= k < |ticks| ==> Advances(ticks[k])
    requires Valid(g)
    ensures AllAbove(Run(g, ticks).ids, Encode(g.lastTimestamp, g.machineId, g.sequence))
    decreases |ticks|
  {
    if |ticks| > 0 {
      RunUnfold(g, ticks);
      var st := Generate(g, ticks[0].now, ticks[0].wait);
      if st.result.Success? {
        var rest := Run(st.next, ticks[1..]).ids;
        RunIdsAbove(st.next, ticks[1..]);
        GenerateIncreases(g, ticks[0].now, ticks[0].wait);
        var ids := Run(g, ticks).ids;
        forall i | 0 < i < |ids|
          ensures ids[i] > Encode(g.lastTimestamp, g.machineId, g.sequence)
        {
          assert ids[i] == rest[i - 1];
        }
      }
    }
  }

  /** Every identifier of a series of calls carries the generator's machine ID. */
  lemma {:induction false} RunIdsMachine(g: Generator, ticks: seq<Tick>)
    requires forall k :: 0 <= k < |ticks| ==> Advances(ticks[k])
    ensures AllOnMachine(Run(g, ticks).ids, g.machineId)
    decreases |ticks|
  {
    if |ticks| > 0 {
      RunUnfold(g, ticks);
      var st := Generate(g, ticks[0].now, ticks[0].wait);
      if st.result.Success? {
        var rest := Run(st.next, ticks[1..]).ids;
        RunIdsMachine(st.next, ticks[1..]);
        ParseGenerated(g, ticks[0].now, ticks[0].wait);
        var ids := Run(g, ticks).ids;
        forall i | 0 < i < |ids|
          ensures ParseId(ids[i]).machineId == g.machineId
        {
          assert ids[i] == rest[i - 1];
        }
      }
    }
  }

  /** The identifiers of a series of calls on one generator are strictly increasing. */
  lemma {:induction false} RunIdsIncrease(g: Generator, ticks: seq<Tick>)
    requires forall k :: 0 <= k < |ticks| ==> Advances(ticks[k])
    ensures StrictlyIncreasing(Run(g, ticks).ids)
    decreases |ticks|
  {
    if |ticks| > 0 {
      RunUnfold(g, ticks);
      var st := Generate(g, ticks[0].now, ticks[0].wait);
      if st.result.Success? {
        var rest := Run(st.next, ticks[1..]).ids;
        RunIdsIncrease(st.next, ticks[1..]);
        RunIdsAbove(st.next, ticks[1..]);
        var ids := Run(g, ticks).ids;
        forall i, j | 0 <= i < j < |ids|
          ensures ids[i] < ids[j]
        {
          assert ids[j] == rest[j - 1];
          if i > 0 {
            assert ids[i] == rest[i - 1];
          }
        }
      }
    }
  }

  /** Identifiers from one series of calls are pairwise distinct. */
  lemma RunIdsDistinct(g: Generator, ticks: seq<Tick>)
    requires forall k :: 0 <= k < |ticks| ==> Advances(ticks[k])
    ensures Distinct(Run(g, ticks).ids)
  {
    var ids := Run(g, ticks).ids;
    RunIdsIncrease(g, ticks);
    forall i, j | 0 <= i < |ids| && 0 <= j < |ids| && i != j
      ensures ids[i] != ids[j]
    {
      if i < j {
        assert ids[i] < ids[j];
      } else {
        assert 0 <= j < i < |ids|;
        assert ids[j] < ids[i];
      }
    }
  }

  /** The outcome `r` of later calls, preceded by the identifiers `ids` of earlier ones. */
  function Prepend(ids: seq<int>, r: RunOutcome): RunOutcome {
    RunOutcome(r.last, ids + r.ids, r.failure)
  }

  /**
    One step of `Run` over a suffix: if the series from `g` is `ids` followed
    by the series from `last` over the ticks from `k` on, then the call at
    tick `k` either ends the series or extends `ids` by its identifier.
  */
  lemma RunStep(g: Generator, ticks: seq<Tick>, k: nat, ids: seq<int>, last: Generator)
    requires k < |ticks|
    requires forall j :: 0 <= j < |ticks| ==> Advances(ticks[j])
    requires Run(g, ticks) == Prepend(ids, Run(last, ticks[k..]))
    ensures Advances(ticks[k])
    ensures var st := Generate(last, ticks[k].now, ticks[k].wait);
            && (st.result.Failure? ==> Run(g, ticks) == RunOutcome(last, ids, Some(st.result.error)))
            && (st.result.Success? ==>
                  Run(g, ticks) == Prepend(ids + [st.result.value], Run(st.next, ticks[k + 1..])))
  {
    assert Advances(ticks[k]);
    assert ticks[k..][0] == ticks[k];
    assert ticks[k..][1..] == ticks[k + 1..];
    var st := Generate(last, ticks[k].now, ticks[k].wait);
    if st.result.Success? {
      var rest := Run(st.next, ticks[k + 1..]);
      assert ids + ([st.result.value] + rest.ids) == (ids + [st.result.value]) + rest.ids;
    }
  }

  /**
    The loop a caller writes to draw one identifier per tick from one
    generator. It computes `Run`, so `RunIdsIncrease` and `RunIdsDistinct`
    apply to the identifiers it returns.
  */
  method GenerateIds(g: Generator, ticks: seq<Tick>) returns (last: Generator, ids: seq<int>, failure: Option<Error>)
    requires forall k :: 0 <= k < |ticks| ==> Advances(ticks[k])
    ensures RunOutcome(last, ids, failure) == Run(g, ticks)
    ensures failure.Some? ==> ticks[|ids|].now < last.lastTimestamp
  {
    last, ids, failure := g, [], None;
    var k := 0;
    assert ticks[0..] == ticks;
    while k < |ticks|
      invariant 0 <= k <= |ticks| && |ids| == k
      invariant Run(g, ticks) == Prepend(ids, Run(last, ticks[k..]))
    {
      RunStep(g, ticks, k, ids, last);
      var st := Generate(last, ticks[k].now, ticks[k].wait);
      if st.result.Failure? {
        failure := Some(st.result.error);
        return;
      }
      last := st.next;
      ids := ids + [st.result.value];
      k := k + 1;
    }
    assert ticks[k..] == [];
  }
}
