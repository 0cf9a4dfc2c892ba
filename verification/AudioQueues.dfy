/** Two chunked audio queues, the native one (emulator.rs, `AudioQueue`) and the worklet's
    (audio-worklet.js), refine one flat, bounded, drop-oldest sequence of samples. */
module AudioQueues {
  import opened Base

  function Flatten<T>(chunks: seq<seq<T>>): seq<T> {
    if chunks == [] then [] else chunks[0] + Flatten(chunks[1..])
  }

  lemma {:induction false} FlattenAppend<T>(chunks: seq<seq<T>>, chunk: seq<T>)
    ensures Flatten(chunks + [chunk]) == Flatten(chunks) + chunk
  {
    if chunks == [] {
      assert chunks + [chunk] == [chunk];
    } else {
      FlattenAppend(chunks[1..], chunk);
      assert (chunks + [chunk])[1..] == chunks[1..] + [chunk];
    }
  }

  /** The newest `max` samples. */
  function Newest<T>(s: seq<T>, max: nat): seq<T> {
    if |s| > max then s[|s| - max..] else s
  }

  lemma NewestOfNewer<T>(s: seq<T>, n: nat, max: nat)
    requires n + max <= |s|
    ensures Newest(s[n..], max) == Newest(s, max)
  {
  }

  // ---------- Playback, on the flat sequence ----------

  /** The audible value: held below rate one, linearly interpolated otherwise. */
  function Audible(content: seq<real>, phase: real, step: real): real {
    if content == [] then 0.0
    else if step < 1.0 then content[0]
    else content[0] + ((if |content| > 1 then content[1] else content[0]) - content[0]) * phase
  }

  datatype Playback = Playback(content: seq<real>, phase: real)

  /** Consumes the whole samples the phase has passed. A drained queue either forgets the rest of
      the phase (`forget`) or carries it over. */
  function Settled(content: seq<real>, phase: real, forget: bool): (p: Playback)
    requires content != [] && phase >= 0.0
    ensures p.phase >= 0.0
  {
    var passed := phase.Floor;
    if passed >= |content| then Playback([], if forget then 0.0 else phase - |content| as real)
    else Playback(content[passed..], phase - passed as real)
  }

  /** Consuming one sample at a time settles the phase. */
  lemma SettleOne(content: seq<real>, phase: real, forget: bool)
    requires content != [] && phase >= 0.0
    ensures phase < 1.0 ==> Settled(content, phase, forget) == Playback(content, phase)
    ensures phase >= 1.0 && |content| == 1 ==>
              Settled(content, phase, forget) == Playback([], if forget then 0.0 else phase - 1.0)
    ensures phase >= 1.0 && |content| > 1 ==>
              Settled(content, phase, forget) == Settled(content[1..], phase - 1.0, forget)
  {
    assert (phase - 1.0).Floor == phase.Floor - 1;
    if phase >= 1.0 && phase.Floor < |content| {
      assert content[phase.Floor..] == content[1..][phase.Floor - 1..];
    }
  }

  function Stepped(p: Playback, step: real, forget: bool): (q: Playback)
    requires p.phase >= 0.0 && step > 0.0
    ensures q.phase >= 0.0
  {
    if p.content == [] then p else Settled(p.content, p.phase + step, forget)
  }

  /** The output of `n` host frames. */
  function Played(p: Playback, step: real, forget: bool, n: nat): seq<real>
    requires p.phase >= 0.0 && step > 0.0
    decreases n
  {
    if n == 0 then [] else [Audible(p.content, p.phase, step)] + Played(Stepped(p, step, forget), step, forget, n - 1)
  }

  function After(p: Playback, step: real, forget: bool, n: nat): Playback
    requires p.phase >= 0.0 && step > 0.0
    decreases n
  {
    if n == 0 then p else After(Stepped(p, step, forget), step, forget, n - 1)
  }

  lemma PlayOne(output: seq<real>, p: Playback, step: real, forget: bool, n: nat)
    requires p.phase >= 0.0 && step > 0.0 && n > 0
    ensures var q := Stepped(p, step, forget);
            && output + Played(p, step, forget, n)
               == output + [Audible(p.content, p.phase, step)] + Played(q, step, forget, n - 1)
            && After(p, step, forget, n) == After(q, step, forget, n - 1)
  {
  }

  predicate InPhase(p: Playback) { 0.0 <= p.phase < 1.0 }

  /** The two players move alike exactly when the step does not overrun the queue. */
  lemma PlayersAgree(p: Playback, step: real)
    requires InPhase(p) && step > 0.0
    ensures Stepped(p, step, true) == Stepped(p, step, false) <==>
            p.content == [] || p.phase + step <= |p.content| as real
  {
  }

  /** The native player keeps its phase a fraction; the worklet keeps it one exactly when it
      does not overrun the queue by a whole sample or more. */
  lemma PhaseStaysFraction(p: Playback, step: real)
    requires InPhase(p) && step > 0.0
    ensures InPhase(Stepped(p, step, true))
    ensures InPhase(Stepped(p, step, false)) <==> p.content == [] || p.phase + step < |p.content| as real + 1.0
  {
  }

  // ---------- What is heard, sample by sample ----------

  /** The value at position `x` of some samples: the last one passed, or, with `between`, on the line from it to
      the next; the last sample has no next one. */
  function ValueAt(content: seq<real>, x: real, between: bool): real {
    var i := x.Floor;
    if !(0 <= i < |content|) then 0.0
    else if !between then content[i]
    else if i + 1 == |content| then content[i]
    else content[i] * (1.0 - (x - i as real)) + content[i + 1] * (x - i as real)
  }

  lemma AudibleIsValue(content: seq<real>, phase: real, step: real)
    requires 0.0 <= phase && (content != [] ==> phase < 1.0)
    ensures Audible(content, phase, step) == ValueAt(content, phase, step >= 1.0)
  {
    if |content| > 1 {
      Blend(content[0], content[1], phase);
    }
  }

  lemma Blend(a: real, b: real, x: real)
    ensures a + (b - a) * x == a * (1.0 - x) + b * x && a + (a - a) * x == a
  {
  }

  lemma ValueShift(content: seq<real>, m: nat, x: real, between: bool)
    requires m <= |content| && x >= 0.0
    ensures ValueAt(content[m..], x, between) == ValueAt(content, x + m as real, between)
  {
    assert (x + m as real).Floor == x.Floor + m;
  }

  lemma {:induction false} PlayedIsAudible(p: Playback, step: real, forget: bool, n: nat, k: nat)
    requires p.phase >= 0.0 && step > 0.0 && k < n
    ensures |Played(p, step, forget, n)| == n
    ensures var q := After(p, step, forget, k); Played(p, step, forget, n)[k] == Audible(q.content, q.phase, step)
    decreases n
  {
    PlayedLength(p, step, forget, n);
    if k > 0 {
      var q := Stepped(p, step, forget);
      assert Played(p, step, forget, n)[k] == Played(q, step, forget, n - 1)[k - 1];
      PlayedIsAudible(q, step, forget, n - 1, k - 1);
    }
  }

  /** After `k` steps the samples before the position have been consumed. */
  ghost predicate IsCut(q: Playback, content: seq<real>, x: real) {
    if x < |content| as real then 0 <= x.Floor && q == Playback(content[x.Floor..], x - x.Floor as real)
    else q.content == []
  }

  /** One step: either the queue is drained, or `m` samples are gone. */
  lemma StepCut(p: Playback, step: real, forget: bool, q: Playback, m: int)
    requires InPhase(p) && p.content != [] && step > 0.0
    requires q == Stepped(p, step, forget) && m == (p.phase + step).Floor
    ensures q.phase >= 0.0 && m >= 0
    ensures m >= |p.content| ==> q.content == [] && p.phase + step >= |p.content| as real
    ensures m < |p.content| ==> InPhase(q) && q.content == p.content[m..] && q.phase + m as real == p.phase + step
  {
  }

  lemma {:induction false} AfterIsCut(p: Playback, step: real, forget: bool, k: nat, x: real)
    requires InPhase(p) && step > 0.0 && x == Position(p.phase, step, k)
    ensures IsCut(After(p, step, forget, k), p.content, x)
    decreases k
  {
    AdvancesForward(step, k);
    if p.content == [] {
      DrainedStays(p, step, forget, k);
      CutPastEnd(p, p.content, x);
    } else if k == 0 {
      CutAtStart(p);
    } else {
      var q, m := Stepped(p, step, forget), (p.phase + step).Floor;
      StepCut(p, step, forget, q, m);
      AfterStep(p, step, forget, k, q);
      if m >= |p.content| {
        DrainedStays(q, step, forget, k - 1);
        CutPastEnd(q, p.content, x);
      } else {
        var y := Position(q.phase, step, k - 1);
        AfterIsCut(q, step, forget, k - 1, y);
        CutOfCut(After(q, step, forget, k - 1), p.content, m, y, x);
      }
    }
  }

  lemma CutAtStart(p: Playback)
    requires InPhase(p)
    ensures IsCut(p, p.content, p.phase)
  {
    assert p.content[0..] == p.content;
  }

  lemma CutPastEnd(q: Playback, content: seq<real>, x: real)
    requires q.content == [] && x >= |content| as real
    ensures IsCut(q, content, x)
  {
  }

  lemma AfterStep(p: Playback, step: real, forget: bool, k: nat, q: Playback)
    requires p.phase >= 0.0 && step > 0.0 && k > 0 && q == Stepped(p, step, forget)
    ensures After(p, step, forget, k) == After(q, step, forget, k - 1)
    ensures Position(p.phase, step, k) == Position(p.phase + step, step, k - 1) >= p.phase + step
    ensures q.phase >= 0.0 && Position(q.phase, step, k - 1) >= q.phase
    ensures Position(p.phase, step, k) - (p.phase + step) == Position(q.phase, step, k - 1) - q.phase
  {
    AdvancesForward(step, k - 1);
  }

  lemma CutOfCut(q: Playback, content: seq<real>, m: nat, x: real, y: real)
    requires m <= |content| && x >= 0.0 && y == x + m as real && IsCut(q, content[m..], x)
    ensures IsCut(q, content, y)
  {
    assert y.Floor == x.Floor + m;
    if x < |content[m..]| as real {
      assert content[m..][x.Floor..] == content[m + x.Floor..];
    }
  }

  /** Playing resamples: the k-th value heard is the one at k steps from the phase, on the line between two
      samples from rate one up, and silence past the end. */
  lemma PlayingResamples(p: Playback, step: real, forget: bool, n: nat, k: nat)
    requires InPhase(p) && step > 0.0 && k < n
    ensures |Played(p, step, forget, n)| == n
    ensures Played(p, step, forget, n)[k] == ValueAt(p.content, Position(p.phase, step, k), step >= 1.0)
  {
    PlayedIsAudible(p, step, forget, n, k);
    AfterIsCut(p, step, forget, k, Position(p.phase, step, k));
    AdvancesForward(step, k);
    CutValue(After(p, step, forget, k), p.content, Position(p.phase, step, k), step);
  }

  lemma CutValue(q: Playback, content: seq<real>, x: real, step: real)
    requires x >= 0.0 && IsCut(q, content, x)
    ensures Audible(q.content, q.phase, step) == ValueAt(content, x, step >= 1.0)
  {
    if x < |content| as real {
      AudibleIsValue(q.content, q.phase, step);
      ValueShift(content, x.Floor, q.phase, step >= 1.0);
    }
  }

  lemma {:induction false} PlayedLength(p: Playback, step: real, forget: bool, n: nat)
    requires p.phase >= 0.0 && step > 0.0
    ensures |Played(p, step, forget, n)| == n
    decreases n
  {
    if n > 0 {
      PlayedLength(Stepped(p, step, forget), step, forget, n - 1);
    }
  }

  // ---------- Whole runs without a refill ----------

  /** Where the cursor is after `k` steps, counted from the end of the queue: negative while samples are left. */
  function Position(gap: real, step: real, k: nat): real { gap + Advanced(step, k) }

  function Advanced(step: real, k: nat): real {
    if k == 0 then 0.0 else Advanced(step, k - 1) + step
  }

  lemma {:induction false} AdvancedIsProduct(step: real, k: nat)
    ensures Advanced(step, k) == step * k as real
  {
    if k > 0 {
      AdvancedIsProduct(step, k - 1);
      assert step * k as real == step * (k - 1) as real + step;
    }
  }

  lemma {:induction false} AdvancesForward(step: real, k: nat)
    requires step > 0.0
    ensures Advanced(step, k) >= 0.0
  {
    if k > 0 {
      AdvancesForward(step, k - 1);
    }
  }

  function Gap(p: Playback): real { p.phase - |p.content| as real }

  /** Some step of the first `n` leaves the queue behind and ends further than `limit` past its end
      (`strictly`), or at least that far. */
  ghost predicate Passes(gap: real, step: real, n: nat, limit: real, strictly: bool) {
    exists k: nat :: k < n && Position(gap, step, k) < 0.0 && Beyond(Position(gap, step, k + 1), limit, strictly)
  }

  predicate Beyond(x: real, limit: real, strictly: bool) { if strictly then x > limit else x >= limit }

  lemma PositionShift(gap: real, step: real, k: nat)
    ensures Position(gap + step, step, k) == Position(gap, step, k + 1) && Position(gap, step, 0) == gap
  {
  }

  lemma PassesShift(gap: real, step: real, n: nat, limit: real, strictly: bool)
    requires n > 0
    ensures Passes(gap, step, n, limit, strictly)
            <==> (gap < 0.0 && Beyond(gap + step, limit, strictly)) || Passes(gap + step, step, n - 1, limit, strictly)
  {
    PositionShift(gap, step, 0);
    if Passes(gap, step, n, limit, strictly) {
      var k: nat :| k < n && Position(gap, step, k) < 0.0 && Beyond(Position(gap, step, k + 1), limit, strictly);
      if k > 0 {
        PositionShift(gap, step, k - 1);
        PositionShift(gap, step, k);
        assert Position(gap + step, step, k - 1) < 0.0
               && Beyond(Position(gap + step, step, k - 1 + 1), limit, strictly);
      }
    }
    if gap < 0.0 && Beyond(gap + step, limit, strictly) {
      assert Position(gap, step, 0) < 0.0 && Beyond(Position(gap, step, 0 + 1), limit, strictly);
    }
    if Passes(gap + step, step, n - 1, limit, strictly) {
      var k: nat :| k < n - 1 && Position(gap + step, step, k) < 0.0
                    && Beyond(Position(gap + step, step, k + 1), limit, strictly);
      PositionShift(gap, step, k);
      PositionShift(gap, step, k + 1);
      assert Position(gap, step, k + 1) < 0.0 && Beyond(Position(gap, step, k + 1 + 1), limit, strictly);
    }
  }

  lemma NeverPassesAgain(gap: real, step: real, n: nat, limit: real, strictly: bool)
    requires gap >= 0.0 && step > 0.0
    ensures !Passes(gap, step, n, limit, strictly)
  {
    forall k: nat ensures Position(gap, step, k) >= 0.0 {
      AdvancesForward(step, k);
    }
  }

  lemma {:induction false} DrainedStays(p: Playback, step: real, forget: bool, n: nat)
    requires p.content == [] && p.phase >= 0.0 && step > 0.0
    ensures Played(p, step, forget, n) == Silence(n) && After(p, step, forget, n) == p
    decreases n
  {
    if n > 0 {
      DrainedStays(p, step, forget, n - 1);
    }
  }

  function Silence(n: nat): seq<real> {
    if n == 0 then [] else [0.0] + Silence(n - 1)
  }

  lemma StepMovesGap(p: Playback, step: real)
    requires InPhase(p) && p.content != [] && step > 0.0
    ensures Gap(p) < 0.0
    ensures var q, r := Stepped(p, step, true), Stepped(p, step, false);
            && InPhase(q) && (InPhase(r) <==> Gap(p) + step < 1.0) && (q == r <==> Gap(p) + step <= 0.0)
            && Gap(r) == Gap(p) + step
            && (q != r ==> q.content == [] && r.content == [])
  {
    PlayersAgree(p, step);
    PhaseStaysFraction(p, step);
  }

  /** From the same state, and until samples arrive, both players produce the same output. */
  lemma {:induction false} SameOutputUntilRefill(p: Playback, step: real, n: nat)
    requires InPhase(p) && step > 0.0
    ensures Played(p, step, true, n) == Played(p, step, false, n)
    decreases n
  {
    if p.content == [] {
      DrainedStays(p, step, true, n);
      DrainedStays(p, step, false, n);
    } else if n > 0 {
      var q, r := Stepped(p, step, true), Stepped(p, step, false);
      StepMovesGap(p, step);
      if q == r {
        SameOutputUntilRefill(q, step, n - 1);
      } else {
        DrainedStays(q, step, true, n - 1);
        DrainedStays(r, step, false, n - 1);
      }
    }
  }

  /** After any number of steps both players are in the same state exactly when no step on the way
      went past the end of the queue. */
  lemma {:induction false} SameStateUntilPassed(p: Playback, step: real, n: nat)
    requires InPhase(p) && step > 0.0
    ensures After(p, step, true, n) == After(p, step, false, n) <==> !Passes(Gap(p), step, n, 0.0, true)
    decreases n, 0
  {
    if p.content == [] {
      DrainedStays(p, step, true, n);
      DrainedStays(p, step, false, n);
      NeverPassesAgain(Gap(p), step, n, 0.0, true);
    } else if n > 0 {
      StepMovesGap(p, step);
      PassesShift(Gap(p), step, n, 0.0, true);
      SameStateRest(Stepped(p, step, true), Stepped(p, step, false), step, n - 1, Gap(p) + step);
    }
  }

  /** The same after one step, which ended at `gap`. */
  lemma {:induction false} SameStateRest(q: Playback, r: Playback, step: real, n: nat, gap: real)
    requires InPhase(q) && r.phase >= 0.0 && step > 0.0 && gap == Gap(r)
    requires (q == r <==> gap <= 0.0) && (q != r ==> q.content == [] && r.content == [])
    ensures After(q, step, true, n) == After(r, step, false, n) <==> gap <= 0.0 && !Passes(gap, step, n, 0.0, true)
    decreases n, 1
  {
    if q == r {
      SameStateUntilPassed(q, step, n);
    } else {
      DrainedStays(q, step, true, n);
      DrainedStays(r, step, false, n);
    }
  }

  /** After any number of steps the native phase is a fraction; the worklet's is one exactly when no
      step on the way ended a whole sample or more past the end of the queue. */
  lemma {:induction false} PhaseStaysFractionInRun(p: Playback, step: real, n: nat)
    requires InPhase(p) && step > 0.0
    ensures InPhase(After(p, step, true, n))
    ensures InPhase(After(p, step, false, n)) <==> !Passes(Gap(p), step, n, 1.0, false)
    decreases n
  {
    if p.content == [] {
      DrainedStays(p, step, true, n);
      DrainedStays(p, step, false, n);
      NeverPassesAgain(Gap(p), step, n, 1.0, false);
    } else if n > 0 {
      var q, r := Stepped(p, step, true), Stepped(p, step, false);
      PhaseStaysFractionInRun(q, step, n - 1);
      PassesShift(Gap(p), step, n, 1.0, false);
      StepMovesGap(p, step);
      if InPhase(r) {
        PhaseStaysFractionInRun(r, step, n - 1);
      } else {
        DrainedStays(r, step, false, n - 1);
      }
    }
  }

  lemma {:induction false} SlowStepsNeverPass(gap: real, step: real, n: nat)
    requires 0.0 < step <= 1.0
    ensures !Passes(gap, step, n, 1.0, false)
    decreases n
  {
    if n > 0 {
      PassesShift(gap, step, n, 1.0, false);
      SlowStepsNeverPass(gap + step, step, n - 1);
    }
  }

  lemma SlowStepsKeepFraction(p: Playback, step: real, n: nat)
    requires InPhase(p) && 0.0 < step <= 1.0
    ensures InPhase(After(p, step, false, n))
  {
    PhaseStaysFractionInRun(p, step, n);
    SlowStepsNeverPass(Gap(p), step, n);
  }

  /** At every lower host rate there is a phase from which the last sample of a queue makes it leave. */
  lemma FastStepsLeaveFraction(sample: real, step: real)
    requires step > 1.0
    ensures var p := Playback([sample], if step < 2.0 then 2.0 - step else 0.0);
            InPhase(p) && !InPhase(Stepped(p, step, false))
  {
    var p := Playback([sample], if step < 2.0 then 2.0 - step else 0.0);
    PhaseStaysFraction(p, step);
  }

  /** The worklet from its first sample, on a device that plays at 8000 Hz: one step overruns the one
      sample queued, and the phase becomes 1.75625. */
  lemma WorkletPhaseEscapes(sample: real)
    ensures After(Playback([sample], 0.0), 22050.0 / 8000.0, false, 1) == Playback([], 1.75625)
    ensures !InPhase(Playback([], 1.75625))
  {
    assert (22050.0 / 8000.0).Floor == 2;
  }

  // ---------- Whole runs ----------

  /** What the worklet is told: a chunk arrives, the queue is cleared, or the host asks for `n` frames. */
  datatype Event = Arrive(chunk: seq<real>) | Clear | Play(n: nat)

  /** Samples join the queue; an overflow drops the oldest and restarts the phase. */
  function Refilled(p: Playback, chunk: seq<real>, max: nat): Playback {
    Playback(Newest(p.content + chunk, max), if |p.content| + |chunk| > max then 0.0 else p.phase)
  }

  function Next(p: Playback, event: Event, step: real, max: nat): (q: Playback)
    requires p.phase >= 0.0 && step > 0.0
  {
    match event
    case Arrive(chunk) => if chunk == [] then p else Refilled(p, chunk, max)
    case Clear => Playback([], 0.0)
    case Play(n) => After(p, step, false, n)
  }

  lemma {:induction false} AfterStays(p: Playback, step: real, forget: bool, n: nat)
    requires p.phase >= 0.0 && step > 0.0
    ensures After(p, step, forget, n).phase >= 0.0 && |After(p, step, forget, n).content| <= |p.content|
    decreases n
  {
    if n > 0 {
      SteppedStays(p, step, forget);
      AfterStays(Stepped(p, step, forget), step, forget, n - 1);
    }
  }

  lemma SteppedStays(p: Playback, step: real, forget: bool)
    requires p.phase >= 0.0 && step > 0.0
    ensures |Stepped(p, step, forget).content| <= |p.content|
  {
  }

  lemma NextStays(p: Playback, event: Event, step: real, max: nat)
    requires p.phase >= 0.0 && step > 0.0 && |p.content| <= max
    ensures Next(p, event, step, max).phase >= 0.0 && |Next(p, event, step, max).content| <= max
  {
    if event.Play? {
      AfterStays(p, step, false, event.n);
    }
  }

  /** The queue after the first events of a run, from an empty start. */
  function StateAfter(events: seq<Event>, step: real, max: nat): (p: Playback)
    requires step > 0.0
    ensures p.phase >= 0.0 && |p.content| <= max
  {
    if events == [] then Playback([], 0.0)
    else
      var before := StateAfter(events[..|events| - 1], step, max);
      NextStays(before, events[|events| - 1], step, max);
      Next(before, events[|events| - 1], step, max)
  }

  /** What the host hears in a run. */
  function Sound(events: seq<Event>, step: real, max: nat): seq<real>
    requires step > 0.0
  {
    if events == [] then []
    else
      var front, last := events[..|events| - 1], events[|events| - 1];
      Sound(front, step, max) + if last.Play? then Played(StateAfter(front, step, max), step, false, last.n) else []
  }

  /** At a host rate of 22050 Hz or more (a step of one at most) the worklet's phase stays a fraction in
      every run, whatever arrives and whenever the queue is cleared. */
  lemma {:induction false} SlowRunsKeepFraction(events: seq<Event>, step: real, max: nat)
    requires 0.0 < step <= 1.0
    ensures InPhase(StateAfter(events, step, max))
  {
    if events != [] {
      var front, last := events[..|events| - 1], events[|events| - 1];
      SlowRunsKeepFraction(front, step, max);
      if last.Play? {
        SlowStepsKeepFraction(StateAfter(front, step, max), step, last.n);
      }
    }
  }

  // ---------- The native queue ----------

  /** Unsigned 8-bit PCM to a signal in [-1, 1). */
  function Pcm(sample: byte): real { (sample as int as real - 128.0) / 128.0 }

  function Signal(content: seq<byte>): (signal: seq<real>)
    ensures |signal| == |content|
  {
    seq(|content|, i requires 0 <= i < |content| => Pcm(content[i]))
  }

  // ---------- Chunks and a cursor ----------

  ghost predicate Shaped<T>(chunks: seq<seq<T>>, idx: nat) {
    && (forall k :: 0 <= k < |chunks| ==> chunks[k] != [])
    && (if chunks == [] then idx == 0 else idx < |chunks[0]|)
  }

  /** The samples from the cursor on. */
  function Remaining<T>(chunks: seq<seq<T>>, idx: nat): seq<T> {
    if idx <= |Flatten(chunks)| then Flatten(chunks)[idx..] else []
  }

  lemma PushChunk<T>(chunks: seq<seq<T>>, idx: nat, chunk: seq<T>)
    requires Shaped(chunks, idx) && chunk != []
    ensures Shaped(chunks + [chunk], idx)
    ensures Remaining(chunks + [chunk], idx) == Remaining(chunks, idx) + chunk
  {
    FlattenAppend(chunks, chunk);
    if chunks != [] {
      assert Flatten(chunks) == chunks[0] + Flatten(chunks[1..]);
    }
  }

  lemma PopChunk<T>(chunks: seq<seq<T>>, idx: nat)
    requires Shaped(chunks, idx) && chunks != []
    ensures Shaped(chunks[1..], 0)
    ensures |chunks[0]| - idx <= |Remaining(chunks, idx)|
    ensures Remaining(chunks[1..], 0) == Remaining(chunks, idx)[|chunks[0]| - idx..]
  {
    assert Flatten(chunks) == chunks[0] + Flatten(chunks[1..]);
  }

  lemma SkipSamples<T>(chunks: seq<seq<T>>, idx: nat, n: nat)
    requires Shaped(chunks, idx) && chunks != [] && idx + n < |chunks[0]|
    ensures Shaped(chunks, idx + n)
    ensures n <= |Remaining(chunks, idx)|
    ensures Remaining(chunks, idx + n) == Remaining(chunks, idx)[n..]
  {
    assert Flatten(chunks) == chunks[0] + Flatten(chunks[1..]);
  }

  /** The sample after the current one, even across a chunk border. */
  lemma Lookahead<T>(chunks: seq<seq<T>>, idx: nat)
    requires Shaped(chunks, idx) && chunks != []
    ensures var content := Remaining(chunks, idx);
            && content != [] && content[0] == chunks[0][idx]
            && (if idx + 1 < |chunks[0]| then |content| > 1 && content[1] == chunks[0][idx + 1]
                else if |chunks| > 1 then |content| > 1 && content[1] == chunks[1][0]
                else |content| == 1)
  {
    assert Flatten(chunks) == chunks[0] + Flatten(chunks[1..]);
    if |chunks| > 1 {
      assert Flatten(chunks[1..]) == chunks[1] + Flatten(chunks[1..][1..]);
    }
  }

  class NativeQueue {
    var chunks: seq<seq<byte>>
    var idx: nat
    var phase: real
    const step: real
    var queuedSamples: nat
    const max: nat

    /** The flat sequence the chunks stand for. */
    ghost var content: seq<byte>

    /** Chunks are nonempty, the cursor is inside the first, and the counter is exact. */
    ghost predicate Queued()
      reads this
    {
      Shaped(chunks, idx) && content == Remaining(chunks, idx) && queuedSamples == |content|
    }

    ghost predicate Valid()
      reads this
    {
      Queued() && step > 0.0 && 0.0 <= phase < 1.0
    }

    ghost function State(): Playback
      reads this
    {
      Playback(Signal(content), phase)
    }

    constructor (step: real, max: nat)
      requires step > 0.0
      ensures Valid() && content == [] && phase == 0.0 && this.step == step && this.max == max
    {
      chunks, idx, phase, queuedSamples, content := [], 0, 0.0, 0, [];
      this.step, this.max := step, max;
    }

    /** Keeps the newest `max` samples of the old content and the new ones. */
    method QueueSamples(samples: seq<byte>)
      requires Valid() && queuedSamples <= max
      modifies this
      ensures Valid() && queuedSamples <= max
      ensures content == Newest(old(content) + samples, max)
      ensures phase == if |old(content)| + |samples| > max then 0.0 else old(phase)
    {
      if samples == [] {
        assert content + samples == content;
        return;
      }
      PushChunk(chunks, idx, samples);
      queuedSamples := queuedSamples + |samples|;
      chunks, content := chunks + [samples], content + samples;
      Trim();
    }

    /** Drops the first chunk if all of it overflows, else just the overflow. */
    method TrimOnce()
      requires Queued() && queuedSamples > max && chunks != []
      modifies this`chunks, this`idx, this`queuedSamples, this`content
      ensures Queued() && max <= queuedSamples < old(queuedSamples)
      ensures Newest(content, max) == Newest(old(content), max)
    {
      var overflow := queuedSamples - max;
      var remaining := |chunks[0]| - idx;
      NewestOfNewer(content, Min(overflow, remaining), max);
      if overflow >= remaining {
        PopChunk(chunks, idx);
        chunks, content := chunks[1..], content[remaining..];
        queuedSamples := queuedSamples - remaining;
        idx := 0;
      } else {
        SkipSamples(chunks, idx, overflow);
        idx, content := idx + overflow, content[overflow..];
        queuedSamples := queuedSamples - overflow;
      }
    }

    method Trim()
      requires Valid()
      modifies this`chunks, this`idx, this`phase, this`queuedSamples, this`content
      ensures Valid() && queuedSamples <= max
      ensures content == Newest(old(content), max)
      ensures phase == if |old(content)| > max then 0.0 else old(phase)
    {
      while queuedSamples > max && chunks != []
        invariant Valid()
        invariant if queuedSamples == |old(content)| then content == old(content) && phase == old(phase)
                  else max <= queuedSamples < |old(content)| && phase == 0.0
        invariant Newest(content, max) == Newest(old(content), max)
        decreases queuedSamples
      {
        TrimOnce();
        phase := 0.0;
      }
    }

    /** Drops exactly the oldest sample. */
    method Advance()
      requires Queued()
      modifies this`chunks, this`idx, this`queuedSamples, this`content
      ensures Queued()
      ensures old(content) != [] ==> content == old(content)[1..] && Signal(content) == Signal(old(content))[1..]
      ensures old(content) == [] ==> content == []
      ensures chunks == [] <==> content == []
    {
      if chunks == [] {
        idx := 0;
        return;
      }
      Lookahead(chunks, idx);
      if idx + 1 >= |chunks[0]| {
        PopChunk(chunks, idx);
      } else {
        SkipSamples(chunks, idx, 1);
      }
      var length := |chunks[0]|;
      idx, content := idx + 1, content[1..];
      queuedSamples := queuedSamples - 1;
      if idx >= length {
        chunks := chunks[1..];
        idx := 0;
      }
      if chunks != [] {
        Lookahead(chunks, idx);
      }
    }

    /** The audible value at the cursor. */
    method Current() returns (sample: real)
      requires Valid()
      ensures sample == Audible(Signal(content), phase, step)
      ensures chunks == [] <==> content == []
    {
      if chunks == [] {
        return 0.0;
      }
      Lookahead(chunks, idx);
      var a := Pcm(chunks[0][idx]);
      if step < 1.0 {
        return a;
      }
      var b := if idx + 1 < |chunks[0]| then chunks[0][idx + 1]
               else if |chunks| > 1 then chunks[1][0]
               else chunks[0][idx];
      sample := a + (Pcm(b) - a) * phase;
    }

    /** Moves the cursor past the whole samples of one step; a drained queue forgets the rest. */
    method Consume()
      requires Valid() && chunks != [] && content != []
      modifies this`chunks, this`idx, this`phase, this`queuedSamples, this`content
      ensures Valid()
      ensures State() == Stepped(old(State()), step, true)
    {
      ghost var goal := Stepped(State(), step, true);
      phase := phase + step;
      while phase >= 1.0
        invariant Queued() && phase >= 0.0 && chunks != []
        invariant content != [] && Settled(Signal(content), phase, true) == goal
        decreases queuedSamples
      {
        SettleOne(Signal(content), phase, true);
        Advance();
        phase := phase - 1.0;
        if chunks == [] {
          phase := 0.0;
          break;
        }
      }
      if chunks != [] {
        SettleOne(Signal(content), phase, true);
      }
    }

    method NextSample() returns (sample: real)
      requires Valid()
      modifies this`chunks, this`idx, this`phase, this`queuedSamples, this`content
      ensures Valid()
      ensures sample == Audible(old(State()).content, old(phase), step)
      ensures State() == Stepped(old(State()), step, true)
    {
      sample := Current();
      if chunks != [] {
        Consume();
      }
    }

    method Render(length: nat) returns (scratch: seq<real>)
      requires Valid()
      modifies this`chunks, this`idx, this`phase, this`queuedSamples, this`content
      ensures Valid()
      ensures scratch == Played(old(State()), step, true, length)
      ensures State() == After(old(State()), step, true, length)
    {
      scratch := [];
      ghost var start, p := State(), State();
      for i := 0 to length
        invariant Valid() && p == State()
        invariant scratch + Played(p, step, true, length - i) == Played(start, step, true, length)
        invariant After(p, step, true, length - i) == After(start, step, true, length)
      {
        PlayOne(scratch, p, step, true, length - i);
        var sample := NextSample();
        scratch := scratch + [sample];
        p := State();
      }
    }
  }

  // ---------- The worklet's queue ----------

  class WorkletQueue {
    var chunks: seq<seq<real>>
    var head: nat
    var idx: nat
    var phase: real
    const step: real
    var queuedSamples: nat
    const max: nat

    ghost var content: seq<real>

    ghost predicate Queued()
      reads this
    {
      && head <= |chunks|
      && Shaped(chunks[head..], idx) && content == Remaining(chunks[head..], idx) && queuedSamples == |content|
    }

    ghost predicate Valid()
      reads this
    {
      Queued() && step > 0.0 && 0.0 <= phase
    }

    ghost function State(): Playback
      reads this
    {
      Playback(content, phase)
    }

    constructor (step: real, max: nat)
      requires step > 0.0
      ensures Valid() && content == [] && phase == 0.0 && this.step == step && this.max == max
    {
      chunks, head, idx, phase, queuedSamples, content := [], 0, 0, 0.0, 0, [];
      this.step, this.max := step, max;
    }

    /** Chunks are posted only when nonempty. */
    method EnqueueChunk(chunk: seq<real>)
      requires Valid() && queuedSamples <= max && chunk != []
      modifies this
      ensures Valid() && queuedSamples <= max
      ensures content == Newest(old(content) + chunk, max)
      ensures phase == if |old(content)| + |chunk| > max then 0.0 else old(phase)
    {
      PushChunk(chunks[head..], idx, chunk);
      assert (chunks + [chunk])[head..] == chunks[head..] + [chunk];
      chunks, content := chunks + [chunk], content + chunk;
      queuedSamples := queuedSamples + |chunk|;
      TrimQueue();
    }

    method ClearQueue()
      requires Valid()
      modifies this
      ensures Valid() && content == [] && phase == 0.0
    {
      chunks, head, idx, phase, queuedSamples, content := [], 0, 0, 0.0, 0, [];
    }

    method TrimOnce()
      requires Queued() && queuedSamples > max && head < |chunks|
      modifies this`head, this`idx, this`queuedSamples, this`content
      ensures Queued() && max <= queuedSamples < old(queuedSamples)
      ensures Newest(content, max) == Newest(old(content), max)
    {
      var overflow := queuedSamples - max;
      var remaining := |chunks[head]| - idx;
      NewestOfNewer(content, Min(overflow, remaining), max);
      if overflow >= remaining {
        PopChunk(chunks[head..], idx);
        assert chunks[head..][1..] == chunks[head + 1..];
        head, content := head + 1, content[remaining..];
        queuedSamples := queuedSamples - remaining;
        idx := 0;
      } else {
        SkipSamples(chunks[head..], idx, overflow);
        idx, content := idx + overflow, content[overflow..];
        queuedSamples := queuedSamples - overflow;
      }
    }

    method TrimQueue()
      requires Valid()
      modifies this`chunks, this`head, this`idx, this`phase, this`queuedSamples, this`content
      ensures Valid() && queuedSamples <= max
      ensures content == Newest(old(content), max)
      ensures phase == if |old(content)| > max then 0.0 else old(phase)
    {
      while queuedSamples > max && head < |chunks|
        invariant Valid()
        invariant if queuedSamples == |old(content)| then content == old(content) && phase == old(phase)
                  else max <= queuedSamples < |old(content)| && phase == 0.0
        invariant Newest(content, max) == Newest(old(content), max)
        decreases queuedSamples
      {
        TrimOnce();
        phase := 0.0;
      }
      CompactQueue();
    }

    /** Forgets consumed chunks; the content stays the same. */
    method CompactQueue()
      requires Queued()
      modifies this`chunks, this`head
      ensures Queued()
      ensures head == |chunks| <==> old(head == |chunks|)
    {
      if head == 0 {
        return;
      }
      if head >= |chunks| {
        assert chunks[head..] == [];
        chunks := [];
        head := 0;
      } else if head >= 32 {
        chunks := chunks[head..];
        head := 0;
      }
    }

    method Advance()
      requires Queued() && head < |chunks|
      modifies this`head, this`idx, this`queuedSamples, this`content
      ensures Queued() && old(content) != [] && content == old(content)[1..]
      ensures head >= |chunks| <==> content == []
    {
      Lookahead(chunks[head..], idx);
      if idx + 1 >= |chunks[head]| {
        PopChunk(chunks[head..], idx);
        assert chunks[head..][1..] == chunks[head + 1..];
      } else {
        SkipSamples(chunks[head..], idx, 1);
      }
      idx, content := idx + 1, content[1..];
      queuedSamples := queuedSamples - 1;
      if idx >= |chunks[head]| {
        head := head + 1;
        idx := 0;
      }
      if head < |chunks| {
        Lookahead(chunks[head..], idx);
      }
    }

    method Current() returns (sample: real)
      requires Valid()
      ensures sample == Audible(content, phase, step)
      ensures head >= |chunks| <==> content == []
    {
      if head >= |chunks| {
        return 0.0;
      }
      Lookahead(chunks[head..], idx);
      var chunk := chunks[head];
      var a := chunk[idx];
      if step < 1.0 {
        return a;
      }
      var b := if idx + 1 < |chunk| then chunk[idx + 1]
               else if head + 1 < |chunks| then chunks[head + 1][0]
               else a;
      sample := a + (b - a) * phase;
    }

    /** Moves past one sample; the phase settles where it would have. */
    method PassSample(ghost goal: Playback)
      requires Queued() && phase >= 1.0 && head < |chunks|
      requires content != [] && Settled(content, phase, false) == goal
      modifies this`chunks, this`head, this`idx, this`phase, this`queuedSamples, this`content
      ensures Queued() && phase >= 0.0 && queuedSamples < old(queuedSamples)
      ensures if head < |chunks| then content != [] && Settled(content, phase, false) == goal
              else content == [] && State() == goal
    {
      SettleOne(content, phase, false);
      Advance();
      phase := phase - 1.0;
    }

    /** Unlike the native queue, a drained worklet carries the rest of the step over. */
    method Consume()
      requires Valid() && head < |chunks| && content != []
      modifies this`chunks, this`head, this`idx, this`phase, this`queuedSamples, this`content
      ensures Valid()
      ensures State() == Stepped(old(State()), step, false)
    {
      ghost var goal := Stepped(State(), step, false);
      phase := phase + step;
      while phase >= 1.0
        invariant Queued() && phase >= 0.0 && head < |chunks|
        invariant content != [] && Settled(content, phase, false) == goal
        decreases queuedSamples
      {
        PassSample(goal);
        if head >= |chunks| {
          CompactQueue();
          break;
        }
      }
      if head < |chunks| {
        SettleOne(content, phase, false);
      }
    }

    method NextSample() returns (sample: real)
      requires Valid()
      modifies this`chunks, this`head, this`idx, this`phase, this`queuedSamples, this`content
      ensures Valid()
      ensures sample == Audible(old(content), old(phase), step)
      ensures State() == Stepped(old(State()), step, false)
    {
      sample := Current();
      if head < |chunks| {
        Consume();
      }
    }

    method Process(length: nat) returns (output: seq<real>)
      requires Valid()
      modifies this`chunks, this`head, this`idx, this`phase, this`queuedSamples, this`content
      ensures Valid()
      ensures output == Played(old(State()), step, false, length)
      ensures State() == After(old(State()), step, false, length)
    {
      output := [];
      ghost var start, p := State(), State();
      for i := 0 to length
        invariant Valid() && p == State()
        invariant output + Played(p, step, false, length - i) == Played(start, step, false, length)
        invariant After(p, step, false, length - i) == After(start, step, false, length)
      {
        PlayOne(output, p, step, false, length - i);
        var sample := NextSample();
        output := output + [sample];
        p := State();
      }
    }
  }

  /** The worklet itself, in every run: what the host hears and what is left are those of the flat
      sequence, and at host rates of 22050 Hz and above its phase is a fraction. */
  method RunWorklet(events: seq<Event>, step: real, max: nat) returns (output: seq<real>, queue: WorkletQueue)
    requires step > 0.0
    ensures fresh(queue) && queue.Valid() && output == Sound(events, step, max)
    ensures queue.State() == StateAfter(events, step, max) && (step <= 1.0 ==> InPhase(queue.State()))
  {
    queue := new WorkletQueue(step, max);
    output := [];
    for n := 0 to |events|
      invariant fresh(queue) && queue.Valid() && queue.step == step && queue.max == max
      invariant queue.State() == StateAfter(events[..n], step, max) && output == Sound(events[..n], step, max)
    {
      assert events[..n + 1][..n] == events[..n];
      match events[n] {
        case Arrive(chunk) =>
          if chunk != [] {
            queue.EnqueueChunk(chunk);
          }
        case Clear => queue.ClearQueue();
        case Play(length) =>
          var block := queue.Process(length);
          output := output + block;
      }
    }
    assert events[..|events|] == events;
    if step <= 1.0 {
      SlowRunsKeepFraction(events, step, max);
    }
  }
}
