/** Whole runs of the held-input relay: when each press began, and what released it. */
module RelayRuns {
  import opened Base
  import opened HeldInputs

  const NEW_RELAY := Relayed([], [], map[], map[], [])

  /** The host input among the first `n` events. */
  function HeardBy(events: seq<Event>, n: nat): seq<Input>
    requires n <= |events|
  {
    if n == 0 then [] else HeardBy(events, n - 1) + HeardOf(events[n - 1])
  }

  /** The frames among the first `n` events. */
  function FramesBy(events: seq<Event>, n: nat): seq<Frame>
    requires n <= |events|
  {
    if n == 0 then [] else FramesBy(events, n - 1) + FramesOf(events[n - 1])
  }

  /** The relay after one more event is what that event makes of it. */
  ghost predicate Link(events: seq<Event>, states: seq<Relayed>, n: nat)
    requires n < |events| && n + 1 < |states|
  {
    states[n + 1] == Next(states[n], FramesBy(events, n), events[n])
  }

  /** The relay before the first `n` events and after each of them. */
  ghost predicate IsRunOf(events: seq<Event>, n: nat, states: seq<Relayed>) {
    && n <= |events| && |states| == n + 1 && states[0] == NEW_RELAY
    && forall k: nat :: k < n ==> Link(events, states, k)
  }

  ghost predicate IsRun(events: seq<Event>, states: seq<Relayed>) { IsRunOf(events, |events|, states) }

  lemma RunMore(events: seq<Event>, n: nat, states: seq<Relayed>, t: Relayed)
    requires IsRunOf(events, n, states) && n < |events| && t == Next(states[n], FramesBy(events, n), events[n])
    ensures IsRunOf(events, n + 1, states + [t])
  {
    var more := states + [t];
    forall k: nat | k < n + 1 ensures Link(events, more, k) {
      if k < n {
        assert Link(events, states, k);
        Linked(events, more, k, states[k], states[k + 1]);
      } else {
        Linked(events, more, k, states[n], t);
      }
    }
  }

  lemma Linked(events: seq<Event>, states: seq<Relayed>, n: nat, before: Relayed, after: Relayed)
    requires n < |events| && n + 1 < |states| && states[n] == before && states[n + 1] == after
    requires after == Next(before, FramesBy(events, n), events[n])
    ensures Link(events, states, n)
  {
  }

  /** The run is determined by its events. */
  lemma {:induction false} RunIsUnique(events: seq<Event>, a: seq<Relayed>, b: seq<Relayed>, n: nat)
    requires IsRun(events, a) && IsRun(events, b) && n <= |events|
    ensures a[n] == b[n]
  {
    if n > 0 {
      RunIsUnique(events, a, b, n - 1);
      assert Link(events, a, n - 1) && Link(events, b, n - 1);
    }
  }

  // ---------- Every state is good ----------

  lemma NextIsGood(r: Relayed, heard: seq<Input>, frames: seq<Frame>, event: Event)
    requires Good(r, heard, frames)
    ensures Good(Next(r, frames, event), heard + HeardOf(event), frames + FramesOf(event))
  {
    match event {
      case Host(input) => InputIsGood(r, heard, frames, input);
      case Ran(frame) => FrameIsGood(r, heard, frames, frame);
    }
  }

  lemma InputIsGood(r: Relayed, heard: seq<Input>, frames: seq<Frame>, input: Input)
    requires Good(r, heard, frames)
    ensures Good(Next(r, frames, Host(input)), heard + [input], frames + [])
  {
    assert frames + [] == frames;
    if input.Down? {
      PressIsGood(r, heard, frames, input);
    } else if input in Early(r.from, frames, true) {
      EarlyIsGood(r, heard, frames, input);
    } else {
      FinishedIsGood(r, heard, frames, input);
    }
  }

  lemma FrameIsGood(r: Relayed, heard: seq<Input>, frames: seq<Frame>, frame: Frame)
    requires Good(r, heard, frames)
    ensures Good(Next(r, frames, Ran(frame)), heard + [], frames + [frame])
  {
    assert heard + [] == heard;
    FrameIsMidway(r, heard, frames, frame);
    OutcomeIsGood(r.(pressed := Marked(r.pressed, frame.Ran())), heard, frames + [frame], frame.running);
  }

  lemma EarlyIsGood(r: Relayed, heard: seq<Input>, frames: seq<Frame>, input: Input)
    requires Good(r, heard, frames) && input.Up? && input in Early(r.from, frames, true)
    ensures Good(r.(pending := Awaiting(r.pending, input)), heard + [input], frames)
  {
    WaitsOnce(r.pending, input.id);
    if k: nat :| k < |r.pending| && r.pending[k].id == input.id {
      AwaitingIs(r.pending, input, Some(k));
      WaitedIsGood(r, heard, frames, input, Some(k));
    } else {
      AwaitingIs(r.pending, input, None);
      WaitedIsGood(r, heard, frames, input, None);
    }
  }

  lemma StepIsGood(r: Relayed, heard: seq<Input>, frames: seq<Frame>, event: Event,
                   t: Relayed, heardNow: seq<Input>, framesNow: seq<Frame>)
    requires Good(r, heard, frames) && t == Next(r, frames, event)
    requires heardNow == heard + HeardOf(event) && framesNow == frames + FramesOf(event)
    ensures Good(t, heardNow, framesNow)
  {
    NextIsGood(r, heard, frames, event);
  }

  lemma {:induction false} RunIsGood(events: seq<Event>, states: seq<Relayed>, n: nat)
    requires IsRun(events, states) && n <= |events|
    ensures Good(states[n], HeardBy(events, n), FramesBy(events, n))
  {
    if n > 0 {
      RunIsGood(events, states, n - 1);
      assert Link(events, states, n - 1);
      StepIsGood(states[n - 1], HeardBy(events, n - 1), FramesBy(events, n - 1), events[n - 1],
                 states[n], HeardBy(events, n), FramesBy(events, n));
    }
  }

  // ---------- What an event delivers ----------

  /** The releases an event delivers. */
  ghost function Arrivals(r: Relayed, frames: seq<Frame>, event: Event): seq<Input> {
    match event
    case Host(input) =>
      if input.Down? then Of(r.pending, input.id)
      else if input in Early(r.from, frames, true) then []
      else [input]
    case Ran(frame) => Leaving(r.pending, Early(r.from, frames + [frame], frame.running))
  }

  predicate IsDown(event: Event, id: Id) { event.Host? && event.input.Down? && event.input.id == id }

  /** A later press of the id, or a frame on which the guest has stopped. */
  predicate Forces(event: Event, id: Id) {
    IsDown(event, id) || (event.Ran? && !event.frame.running)
  }

  lemma ArrivalsAreUps(r: Relayed, frames: seq<Frame>, event: Event)
    requires Waiting(r.pending)
    ensures forall k :: 0 <= k < |Arrivals(r, frames, event)| ==>
              Arrivals(r, frames, event)[k].Up?
              && (event.Host? ==> Arrivals(r, frames, event)[k].id == event.input.id)
  {
    var up := Arrivals(r, frames, event);
    match event {
      case Host(input) =>
        if input.Down? {
          PendingIsUp(r.pending, input.id);
          OfHasId(r.pending, input.id);
        }
      case Ran(frame) =>
        SplitExactly(r.pending, Early(r.from, frames + [frame], frame.running));
        forall k | 0 <= k < |up| ensures up[k].Up? {
          assert up[k] in r.pending;
        }
    }
  }

  lemma {:induction false} OfHasId(inputs: seq<Input>, id: Id)
    ensures forall k :: 0 <= k < |Of(inputs, id)| ==> Of(inputs, id)[k].id == id
  {
    if inputs != [] {
      OfHasId(inputs[..|inputs| - 1], id);
    }
  }

  /** Each is recorded, with the press it ends and whether the event forced it. */
  lemma NextReleases(r: Relayed, frames: seq<Frame>, event: Event)
    requires Waiting(r.pending)
    ensures Next(r, frames, event).released
         == r.released + Records(Arrivals(r, frames, event), r.from, |frames + FramesOf(event)|,
                                 if event.Host? then event.input.Down? else !event.frame.running)
  {
  }

  /** How many ups of an id there are. */
  function UpCount(inputs: seq<Input>, id: Id): nat {
    if inputs == [] then 0
    else
      var last := inputs[|inputs| - 1];
      UpCount(inputs[..|inputs| - 1], id) + if last.Up? && last.id == id then 1 else 0
  }

  lemma {:induction false} UpCountConcat(a: seq<Input>, b: seq<Input>, id: Id)
    ensures UpCount(a + b, id) == UpCount(a, id) + UpCount(b, id)
  {
    if b == [] {
      assert a + b == a;
    } else {
      assert (a + b)[..|a + b| - 1] == a + b[..|b| - 1];
      UpCountConcat(a, b[..|b| - 1], id);
    }
  }

  lemma {:induction false} UpsAreCounted(inputs: seq<Input>, id: Id)
    requires forall k :: 0 <= k < |inputs| ==> inputs[k].Up?
    ensures UpCount(inputs, id) > 0 <==> id in Ids(inputs)
  {
    if inputs != [] {
      var front, last := inputs[..|inputs| - 1], inputs[|inputs| - 1];
      UpsAreCounted(front, id);
      assert inputs == front + [last];
      RecordsAppend(front, last, map[], 0, false);
    }
  }

  lemma NextDelivers(r: Relayed, frames: seq<Frame>, event: Event, id: Id)
    requires Waiting(r.pending)
    ensures UpCount(Next(r, frames, event).delivered, id)
         == UpCount(r.delivered, id) + UpCount(Arrivals(r, frames, event), id)
  {
    var up := Arrivals(r, frames, event);
    UpCountConcat(r.delivered, up, id);
    if event.Host? && event.input.Down? {
      UpCountConcat(r.delivered + up, [event.input], id);
      assert [event.input][..0] == [];
      assert r.delivered + [] == r.delivered;
    }
    assert r.delivered + [] == r.delivered;
  }

  function Lookup(from: map<Id, nat>, id: Id): Option<nat> { if id in from then Some(from[id]) else None }

  /** A release ends the press of its id; a down begins one, unless it is held. */
  lemma NextStarts(r: Relayed, frames: seq<Frame>, event: Event, id: Id)
    requires Waiting(r.pending) && r.pressed.Keys == r.from.Keys
    ensures var kept := if id in Ids(Arrivals(r, frames, event)) then None else Lookup(r.from, id);
            Lookup(Next(r, frames, event).from, id) == if IsDown(event, id) && kept.None? then Some(|frames|) else kept
  {
    ArrivalsAreUps(r, frames, event);
    var up := Arrivals(r, frames, event);
    if event.Host? && up != [] {
      assert up[0].id == event.input.id;
      assert event.input.id in Ids(up);
    }
  }

  /** What an event does to the ups applied of one id, and to its press. */
  ghost predicate Moves(ended: nat, endedNow: nat, from: Option<nat>, fromNow: Option<nat>, down: bool, at: nat) {
    && ended <= endedNow
    && var kept := if ended < endedNow then None else from;
       fromNow == if down && kept.None? then Some(at) else kept
  }

  lemma NextMoves(r: Relayed, frames: seq<Frame>, event: Event, id: Id, t: Relayed)
    requires Waiting(r.pending) && r.pressed.Keys == r.from.Keys && t == Next(r, frames, event)
    ensures Moves(UpCount(r.delivered, id), UpCount(t.delivered, id), Lookup(r.from, id), Lookup(t.from, id),
                  IsDown(event, id), |frames|)
  {
    NextDelivers(r, frames, event, id);
    NextStarts(r, frames, event, id);
    ArrivalsAreUps(r, frames, event);
    UpsAreCounted(Arrivals(r, frames, event), id);
  }

  // ---------- Which press is held ----------

  /** How many ups of an id are applied in each state. */
  ghost function Ended(states: seq<Relayed>, id: Id): (ended: seq<nat>)
    ensures |ended| == |states|
  {
    seq(|states|, n requires 0 <= n < |states| => UpCount(states[n].delivered, id))
  }

  /** When the press of an id that is stored in each state began. */
  ghost function Starts(states: seq<Relayed>, id: Id): (starts: seq<Option<nat>>)
    ensures |starts| == |states|
  {
    seq(|states|, n requires 0 <= n < |states| => Lookup(states[n].from, id))
  }

  /** After `n` events the id is held, and its press began with event `b`: the first down that no up
      applied since has ended. */
  ghost predicate HeldFrom(events: seq<Event>, ended: seq<nat>, n: nat, id: Id, b: nat)
    requires n <= |events| == |ended| - 1
  {
    && b < n && IsDown(events[b], id) && ended[b + 1] == ended[n]
    && forall a: nat :: a < b && IsDown(events[a], id) ==> ended[a + 1] < ended[n]
  }

  /** The press the relay has stored began when the events say. */
  ghost predicate StartsRight(events: seq<Event>, ended: seq<nat>, n: nat, id: Id, from: Option<nat>)
    requires n <= |events| == |ended| - 1
  {
    if from.None? then forall b: nat :: !HeldFrom(events, ended, n, id, b)
    else exists b: nat :: HeldFrom(events, ended, n, id, b) && |FramesBy(events, b)| == from.value
  }

  ghost predicate Grows(ended: seq<nat>) {
    forall m, n :: 0 <= m <= n < |ended| ==> ended[m] <= ended[n]
  }

  /** One press is held at a time. */
  lemma HeldOnce(events: seq<Event>, ended: seq<nat>, n: nat, id: Id, a: nat, b: nat)
    requires n <= |events| == |ended| - 1 && HeldFrom(events, ended, n, id, a) && HeldFrom(events, ended, n, id, b)
    ensures a == b
  {
  }

  /** A press is held whenever some down has not been followed by an up applied. */
  lemma FirstHeld(events: seq<Event>, ended: seq<nat>, n: nat, id: Id, a: nat)
    requires a < n <= |events| == |ended| - 1 && Grows(ended)
    requires IsDown(events[a], id) && ended[a + 1] == ended[n]
    ensures exists b: nat :: HeldFrom(events, ended, n, id, b)
    decreases a
  {
    if c: nat :| c < a && IsDown(events[c], id) && ended[c + 1] >= ended[n] {
      FirstHeld(events, ended, n, id, c);
    } else {
      assert HeldFrom(events, ended, n, id, a);
    }
  }

  /** A down begins the press of an id that is not held. */
  lemma BeginsHeld(events: seq<Event>, ended: seq<nat>, n: nat, id: Id)
    requires n < |events| == |ended| - 1 && Grows(ended) && IsDown(events[n], id)
    requires ended[n + 1] > ended[n] || forall b: nat :: !HeldFrom(events, ended, n, id, b)
    ensures HeldFrom(events, ended, n + 1, id, n)
  {
    forall a: nat | a < n && IsDown(events[a], id) ensures ended[a + 1] < ended[n + 1] {
      if ended[a + 1] == ended[n] {
        FirstHeld(events, ended, n, id, a);
      }
    }
  }

  /** The stored press after one more event. */
  lemma StartsRightStep(events: seq<Event>, ended: seq<nat>, n: nat, id: Id, from: Option<nat>, now: Option<nat>)
    requires n < |events| == |ended| - 1 && Grows(ended) && StartsRight(events, ended, n, id, from)
    requires Moves(ended[n], ended[n + 1], from, now, IsDown(events[n], id), |FramesBy(events, n)|)
    ensures StartsRight(events, ended, n + 1, id, now)
  {
    var m := n + 1;
    if IsDown(events[n], id) && (ended[n] < ended[m] || from.None?) {
      BeginsHeld(events, ended, n, id);
    } else if ended[n] == ended[m] && from.Some? {
      var b: nat :| HeldFrom(events, ended, n, id, b) && |FramesBy(events, b)| == from.value;
      assert HeldFrom(events, ended, m, id, b);
    } else {
      forall b: nat ensures !HeldFrom(events, ended, m, id, b) {
        if HeldFrom(events, ended, m, id, b) {
          assert HeldFrom(events, ended, n, id, b);
        }
      }
    }
  }

  ghost predicate MovesAt(events: seq<Event>, ended: seq<nat>, starts: seq<Option<nat>>, id: Id, n: nat)
    requires n < |events| == |ended| - 1 == |starts| - 1
  {
    Moves(ended[n], ended[n + 1], starts[n], starts[n + 1], IsDown(events[n], id), |FramesBy(events, n)|)
  }

  ghost predicate AllMove(events: seq<Event>, ended: seq<nat>, starts: seq<Option<nat>>, id: Id)
    requires |events| == |ended| - 1 == |starts| - 1
  {
    forall n: nat :: n < |events| ==> MovesAt(events, ended, starts, id, n)
  }

  lemma {:induction false} EndedGrows(events: seq<Event>, ended: seq<nat>, starts: seq<Option<nat>>, id: Id, m: nat,
                                      n: nat)
    requires m <= n <= |events| == |ended| - 1 == |starts| - 1 && AllMove(events, ended, starts, id)
    ensures ended[m] <= ended[n]
  {
    if m < n {
      EndedGrows(events, ended, starts, id, m, n - 1);
      assert MovesAt(events, ended, starts, id, n - 1);
    }
  }

  lemma AllGrow(events: seq<Event>, ended: seq<nat>, starts: seq<Option<nat>>, id: Id)
    requires |events| == |ended| - 1 == |starts| - 1 && AllMove(events, ended, starts, id)
    ensures Grows(ended)
  {
    forall m, n | 0 <= m <= n < |ended| ensures ended[m] <= ended[n] {
      EndedGrows(events, ended, starts, id, m, n);
    }
  }

  lemma {:induction false} StartsRightBy(events: seq<Event>, ended: seq<nat>, starts: seq<Option<nat>>, id: Id, n: nat)
    requires n <= |events| == |ended| - 1 == |starts| - 1 && Grows(ended) && AllMove(events, ended, starts, id)
    requires starts[0] == None
    ensures StartsRight(events, ended, n, id, starts[n])
  {
    if n > 0 {
      StartsRightBy(events, ended, starts, id, n - 1);
      assert MovesAt(events, ended, starts, id, n - 1);
      StartsRightStep(events, ended, n - 1, id, starts[n - 1], starts[n]);
    }
  }

  lemma RunMoves(events: seq<Event>, states: seq<Relayed>, id: Id, n: nat)
    requires IsRun(events, states) && n < |events|
    ensures MovesAt(events, Ended(states, id), Starts(states, id), id, n)
  {
    RunIsGood(events, states, n);
    assert Link(events, states, n);
    NextMoves(states[n], FramesBy(events, n), events[n], id, states[n + 1]);
  }

  /** Whenever and for whatever id, the stored press is the one held. */
  lemma AllStartRight(events: seq<Event>, states: seq<Relayed>, n: nat, id: Id)
    requires IsRun(events, states) && n <= |events|
    ensures StartsRight(events, Ended(states, id), n, id, Lookup(states[n].from, id))
  {
    var ended, starts := Ended(states, id), Starts(states, id);
    forall k: nat | k < |events| ensures MovesAt(events, ended, starts, id, k) {
      RunMoves(events, states, id, k);
    }
    AllGrow(events, ended, starts, id);
    StartsRightBy(events, ended, starts, id, n);
  }

  // ---------- The records of a run ----------

  /** Among the first `n` events, the one that applied record `k`. */
  ghost function Deliverer(states: seq<Relayed>, n: nat, k: nat): nat
    requires n < |states|
  {
    if n == 0 then 0
    else if k < |states[n - 1].released| then Deliverer(states, n - 1, k)
    else n - 1
  }

  /** A release applied by event `e`: its time, and whether a later press or the guest's stop forced it.
      If its id was held, it ends the press that began last, and unless forced that press was ripe. */
  ghost predicate RecordExact(events: seq<Event>, states: seq<Relayed>, e: nat, r: Released)
    requires e < |events| == |states| - 1
  {
    && r.up.Up? && r.at == |FramesBy(events, e + 1)|
    && (r.forced <==> Forces(events[e], r.up.id))
    && (events[e].Host? && events[e].input.Up? ==> r.up == events[e].input)
    && (events[e].Host? ==> r.up.id == events[e].input.id)
    && StartsRight(events, Ended(states, r.up.id), e, r.up.id, r.from)
    && (r.from.Some? && !r.forced ==> r.from.value <= r.at && Ripe(FramesBy(events, e + 1), r.from.value, r.at))
  }

  lemma NextRecord(r: Relayed, frames: seq<Frame>, event: Event, t: Relayed, k: nat)
    requires Waiting(r.pending) && t == Next(r, frames, event) && |r.released| <= k < |t.released|
    ensures var record := t.released[k];
            && record.up.Up? && record.at == |frames + FramesOf(event)| && record.from == Lookup(r.from, record.up.id)
            && (record.forced <==> Forces(event, record.up.id))
            && (event.Host? && event.input.Up? ==> record.up == event.input)
            && (event.Host? ==> record.up.id == event.input.id)
  {
    NextReleases(r, frames, event);
    ArrivalsAreUps(r, frames, event);
    var up := Arrivals(r, frames, event)[k - |r.released|];
    assert t.released[k].up == up;
  }

  lemma RipeUnlessForced(r: Relayed, heard: seq<Input>, frames: seq<Frame>, k: nat)
    requires Good(r, heard, frames) && k < |r.released|
    ensures var record := r.released[k];
            record.from.Some? && !record.forced ==>
              record.from.value <= record.at <= |frames| && Ripe(frames, record.from.value, record.at)
  {
  }

  lemma RecordIsExact(events: seq<Event>, states: seq<Relayed>, e: nat, k: nat)
    requires IsRun(events, states) && e < |events| && |states[e].released| <= k < |states[e + 1].released|
    ensures RecordExact(events, states, e, states[e + 1].released[k])
  {
    RunIsGood(events, states, e);
    RunIsGood(events, states, e + 1);
    assert Link(events, states, e);
    NextRecord(states[e], FramesBy(events, e), events[e], states[e + 1], k);
    AllStartRight(events, states, e, states[e + 1].released[k].up.id);
    RipeUnlessForced(states[e + 1], HeardBy(events, e + 1), FramesBy(events, e + 1), k);
  }

  lemma ReleasedGrows(r: Relayed, frames: seq<Frame>, event: Event, t: Relayed)
    requires Waiting(r.pending) && t == Next(r, frames, event)
    ensures r.released <= t.released
  {
    NextReleases(r, frames, event);
  }

  /** Event `e` keeps the records. */
  lemma RecordsStay(events: seq<Event>, states: seq<Relayed>, e: nat)
    requires IsRun(events, states) && e < |events|
    ensures states[e].released <= states[e + 1].released
  {
    RunIsGood(events, states, e);
    assert Link(events, states, e);
    ReleasedGrows(states[e], FramesBy(events, e), events[e], states[e + 1]);
  }

  lemma {:induction false} RecordsAreExact(events: seq<Event>, states: seq<Relayed>, n: nat, k: nat)
    requires IsRun(events, states) && n <= |events| && k < |states[n].released|
    ensures var e := Deliverer(states, n, k); e < n && RecordExact(events, states, e, states[n].released[k])
  {
    RecordsStay(events, states, n - 1);
    if k < |states[n - 1].released| {
      RecordsAreExact(events, states, n - 1, k);
    } else {
      RecordIsExact(events, states, n - 1, k);
    }
  }

  // ---------- Every run ----------

  /** A release waits only for a press that is held and may not end yet. */
  ghost predicate WaitsForPress(events: seq<Event>, states: seq<Relayed>, id: Id)
    requires |states| == |events| + 1
  {
    var frames := FramesBy(events, |events|);
    exists b: nat ::
      && HeldFrom(events, Ended(states, id), |events|, id, b)
      && |FramesBy(events, b)| <= |frames| && !Ripe(frames, |FramesBy(events, b)|, |frames|)
  }

  lemma WaitingForPress(events: seq<Event>, states: seq<Relayed>, k: nat)
    requires IsRun(events, states) && k < |states[|events|].pending|
    ensures WaitsForPress(events, states, states[|events|].pending[k].id)
  {
    RunIsGood(events, states, |events|);
    AllStartRight(events, states, |events|, states[|events|].pending[k].id);
  }

  ghost predicate AllExact(events: seq<Event>, states: seq<Relayed>, released: seq<Released>)
    requires |states| == |events| + 1
  {
    forall k: nat :: k < |released| ==>
      var e := Deliverer(states, |events|, k);
      e < |events| && RecordExact(events, states, e, released[k])
  }

  lemma RunIsExact(events: seq<Event>, states: seq<Relayed>)
    requires IsRun(events, states)
    ensures AllExact(events, states, states[|events|].released)
    ensures forall k :: 0 <= k < |states[|events|].pending| ==>
              WaitsForPress(events, states, states[|events|].pending[k].id)
  {
    var r := states[|events|];
    forall k: nat | k < |r.released|
      ensures var e := Deliverer(states, |events|, k); e < |events| && RecordExact(events, states, e, r.released[k])
    {
      RecordsAreExact(events, states, |events|, k);
    }
    forall k | 0 <= k < |r.pending| ensures WaitsForPress(events, states, r.pending[k].id) {
      WaitingForPress(events, states, k);
    }
  }

  method Simulate(events: seq<Event>)
    returns (delivered: seq<Input>, waiting: seq<Input>, ghost released: seq<Released>, ghost states: seq<Relayed>)
    ensures IsRun(events, states)
    ensures var r := states[|events|]; delivered == r.delivered && waiting == r.pending && released == r.released
  {
    var relay := new InputRelay();
    states := [NEW_RELAY];
    for n := 0 to |events|
      invariant fresh(relay) && relay.Valid() && relay.frames == FramesBy(events, n)
      invariant IsRunOf(events, n, states) && states[n] == relay.Now()
    {
      relay.Handle(events[n]);
      RunMore(events, n, states, relay.Now());
      states := states + [relay.Now()];
    }
    delivered, waiting, released := relay.delivered, relay.pending, relay.released;
  }

  /** Every run, as the states it goes through determine it. Each alternating id's input is applied in
      order, but for a release that waits, and a release waits only while its press is held and may not
      end yet. Each up applied has its record, in order, with the press it ends, if its id was held, and
      whether a newer press or the guest's stop forced it; otherwise the guest had run since that press
      began and six ticks had passed or it was tracking. */
  method RelayRun(events: seq<Event>)
    returns (delivered: seq<Input>, waiting: seq<Input>, ghost released: seq<Released>, ghost states: seq<Relayed>)
    ensures IsRun(events, states)
    ensures var r := states[|events|]; delivered == r.delivered && waiting == r.pending && released == r.released
    ensures AllFaithful(HeardBy(events, |events|), delivered, waiting)
    ensures Waiting(waiting) && forall k :: 0 <= k < |waiting| ==> WaitsForPress(events, states, waiting[k].id)
    ensures Recorded(released, delivered) && AllExact(events, states, released)
  {
    delivered, waiting, released, states := Simulate(events);
    RunIsGood(events, states, |events|);
    RunIsExact(events, states);
  }
}
