/** Brief presses are held for the guest to see (emulator-worker.js): an early release waits until
    the guest has run and six of its ticks have passed, or it is tracking the interface. */
module HeldInputs {
  import opened Base

  const MIN_PRESS_TICKS := 6

  type Id = nat

  /** Host input of the mouse button or a key. */
  datatype Input = Down(id: Id, payload: nat) | Up(id: Id, payload: nat)

  datatype Held = Held(at: nat, ranGuest: bool)

  /** What a frame reports: the guest tick, interface tracking, and whether the guest executed or
      is still running. */
  datatype Frame = Frame(tick: nat, tracking: bool, steps: nat, running: bool)
  {
    predicate Ran() { steps > 0 || !running }
  }

  /** The input of one id, in order. */
  function Of(inputs: seq<Input>, id: Id): seq<Input> {
    if inputs == [] then []
    else
      var last := inputs[|inputs| - 1];
      var before := Of(inputs[..|inputs| - 1], id);
      if last.id == id then before + [last] else before
  }

  lemma OfAppend(inputs: seq<Input>, input: Input, id: Id)
    ensures Of(inputs + [input], id) == if input.id == id then Of(inputs, id) + [input] else Of(inputs, id)
  {
    assert (inputs + [input])[..|inputs|] == inputs;
  }

  lemma {:induction false} OfConcat(a: seq<Input>, b: seq<Input>, id: Id)
    ensures Of(a + b, id) == Of(a, id) + Of(b, id)
  {
    if b == [] {
      assert a + b == a;
    } else {
      assert (a + b)[..|a + b| - 1] == a + b[..|b| - 1];
      OfConcat(a, b[..|b| - 1], id);
    }
  }

  /** A down, an up, a down, and so on. */
  ghost predicate Alternating(inputs: seq<Input>) {
    forall k :: 0 <= k < |inputs| ==> (inputs[k].Down? <==> k % 2 == 0)
  }

  // ---------- Releases that wait ----------

  /** Waiting releases: ups of different ids. */
  ghost predicate Waiting(pending: seq<Input>) {
    && (forall k :: 0 <= k < |pending| ==> pending[k].Up?)
    && forall j, k :: 0 <= j < k < |pending| ==> pending[j].id != pending[k].id
  }

  function Without(pending: seq<Input>, id: Id): seq<Input> {
    if pending == [] then []
    else
      var last := pending[|pending| - 1];
      var before := Without(pending[..|pending| - 1], id);
      if last.id == id then before else before + [last]
  }

  lemma {:induction false} WithoutKeeps(pending: seq<Input>, id: Id)
    requires Waiting(pending)
    ensures Waiting(Without(pending, id))
    ensures forall input :: input in Without(pending, id) <==> input in pending && input.id != id
  {
    if pending != [] {
      var n := |pending| - 1;
      WithoutKeeps(pending[..n], id);
      assert pending == pending[..n] + [pending[n]];
      assert forall input :: input in pending[..n] ==> input.id != pending[n].id;
    }
  }

  lemma {:induction false} WithoutOf(pending: seq<Input>, id: Id, other: Id)
    ensures Of(Without(pending, id), other) == if other == id then [] else Of(pending, other)
  {
    if pending != [] {
      var n := |pending| - 1;
      WithoutOf(pending[..n], id, other);
      if pending[n].id != id {
        OfAppend(Without(pending[..n], id), pending[n], other);
      }
    }
  }

  /** One id waits at most once. */
  lemma {:induction false} WaitsOnce(pending: seq<Input>, id: Id)
    requires Waiting(pending)
    ensures |Of(pending, id)| <= 1
    ensures Of(pending, id) == [] <==> forall k :: 0 <= k < |pending| ==> pending[k].id != id
    ensures forall k :: 0 <= k < |pending| && pending[k].id == id ==> Of(pending, id) == [pending[k]]
  {
    if pending != [] {
      var n := |pending| - 1;
      WaitsOnce(pending[..n], id);
      assert forall k :: 0 <= k < n ==> pending[..n][k] == pending[k];
    }
  }

  // ---------- Frames ----------

  /** The guest tick after the first `n` frames. */
  function TickAt(frames: seq<Frame>, n: nat): nat
    requires n <= |frames|
  {
    if n == 0 then 0 else frames[n - 1].tick
  }

  function TrackingAt(frames: seq<Frame>, n: nat): bool
    requires n <= |frames|
  {
    n > 0 && frames[n - 1].tracking
  }

  ghost predicate RanBetween(frames: seq<Frame>, from: nat, end: nat)
    requires from <= end <= |frames|
  {
    exists k :: from <= k < end && frames[k].Ran()
  }

  function Elapsed(now: nat, then_: nat): nat { (now - then_) % U32_LIMIT }

  /** Any number of ticks below 2^32 is measured exactly, across a wrap of the tick counter too. */
  lemma ElapsedIsExact(then_: nat, n: nat, now: nat)
    requires then_ < 0x1_0000_0000 && now < 0x1_0000_0000 && n < 0x1_0000_0000
    ensures Elapsed(now, then_) == n <==> now == then_ + n || now + 0x1_0000_0000 == then_ + n
  {
  }

  /** A held press may end after six ticks, and not after fewer unless the interface is tracked. */
  lemma SixTicks(frames: seq<Frame>, from: nat, end: nat, n: nat)
    requires from <= end <= |frames| && n < 0x1_0000_0000
    requires TickAt(frames, end) == (TickAt(frames, from) + n) % 0x1_0000_0000
    ensures Ripe(frames, from, end) <==> RanBetween(frames, from, end) && (TrackingAt(frames, end) || n >= 6)
  {
    var a, b := TickAt(frames, from), TickAt(frames, end);
    assert (b - a) % U32_LIMIT == n % U32_LIMIT;
  }

  /** A press of frame `from` may end at frame `end`: the guest has executed since, and six ticks
      have passed or it is tracking the interface. */
  ghost predicate Ripe(frames: seq<Frame>, from: nat, end: nat)
    requires from <= end <= |frames|
  {
    RanBetween(frames, from, end)
    && (TrackingAt(frames, end) || Elapsed(TickAt(frames, end), TickAt(frames, from)) >= MIN_PRESS_TICKS)
  }

  /** A delivered release: when its press began, if held, and whether a press or stop forced it. */
  datatype Released = Released(up: Input, from: Option<nat>, at: nat, forced: bool)

  /** The ups among some inputs, in order. */
  function Ups(inputs: seq<Input>): seq<Input> {
    if inputs == [] then []
    else
      var last := inputs[|inputs| - 1];
      Ups(inputs[..|inputs| - 1]) + if last.Up? then [last] else []
  }

  lemma {:induction false} UpsConcat(a: seq<Input>, b: seq<Input>)
    ensures Ups(a + b) == Ups(a) + Ups(b)
  {
    if b == [] {
      assert a + b == a;
    } else {
      assert (a + b)[..|a + b| - 1] == a + b[..|b| - 1];
      UpsConcat(a, b[..|b| - 1]);
    }
  }

  /** Every up delivered is accounted for by one release, in order. */
  ghost predicate Recorded(released: seq<Released>, delivered: seq<Input>) {
    Ups(delivered) == seq(|released|, k requires 0 <= k < |released| => released[k].up)
  }

  lemma RecordedMore(released: seq<Released>, delivered: seq<Input>, more: seq<Released>, inputs: seq<Input>)
    requires Recorded(released, delivered) && Recorded(more, inputs)
    ensures Recorded(released + more, delivered + inputs)
  {
    UpsConcat(delivered, inputs);
  }

  lemma RecordedOne(r: Released, downs: seq<Input>)
    requires r.up.Up? && forall input :: input in downs ==> input.Down?
    ensures Recorded([r], [r.up]) && Recorded([r], [r.up] + downs)
  {
    assert [r.up][..0] == [] && Ups([r.up]) == Ups([r.up][..0]) + [r.up];
    NoUps(downs);
    UpsConcat([r.up], downs);
  }

  lemma {:induction false} NoUps(downs: seq<Input>)
    requires forall input :: input in downs ==> input.Down?
    ensures Ups(downs) == []
  {
    if downs != [] {
      assert downs[|downs| - 1] in downs;
      NoUps(downs[..|downs| - 1]);
    }
  }

  ghost predicate Honest(released: seq<Released>, frames: seq<Frame>) {
    forall k :: 0 <= k < |released| ==>
      var r := released[k];
      r.at <= |frames| && (r.from.Some? ==> r.from.value <= r.at && (r.forced || Ripe(frames, r.from.value, r.at)))
  }

  lemma FrameKeepsHonest(released: seq<Released>, frames: seq<Frame>, frame: Frame)
    requires Honest(released, frames)
    ensures Honest(released, frames + [frame])
  {
    var more := frames + [frame];
    forall k | 0 <= k < |released| && released[k].from.Some? && !released[k].forced
      ensures Ripe(more, released[k].from.value, released[k].at)
    {
      var from, end := released[k].from.value, released[k].at;
      assert Ripe(frames, from, end);
      var j :| from <= j < end && frames[j].Ran();
      assert more[j].Ran();
    }
  }

  /** An id's host input is delivered in order with nothing lost, as long as it alternates. */
  ghost predicate Faithful(heard: seq<Input>, delivered: seq<Input>, pending: seq<Input>, id: Id) {
    Alternating(Of(heard, id)) ==> Of(delivered, id) + Of(pending, id) == Of(heard, id)
  }

  lemma {:induction false} AlternatingLast(inputs: seq<Input>, input: Input)
    requires Alternating(inputs + [input])
    ensures Alternating(inputs)
    ensures input.Up? ==> inputs != [] && inputs[|inputs| - 1].Down?
  {
    assert forall k :: 0 <= k < |inputs| ==> (inputs + [input])[k] == inputs[k];
    assert (inputs + [input])[|inputs|] == input;
  }

  /** Hearing an input and delivering it, after what already waits for its id. */
  lemma DeliverNow(heard: seq<Input>, delivered: seq<Input>, pending: seq<Input>, input: Input, id: Id)
    requires Waiting(pending) && Faithful(heard, delivered, pending, id)
    ensures Faithful(heard + [input], delivered + Of(pending, input.id) + [input], Without(pending, input.id), id)
  {
    OfAppend(heard, input, id);
    DeliveredOf(delivered, pending, input, id);
    WithoutOf(pending, input.id, id);
    if Alternating(Of(heard + [input], id)) && input.id == id {
      AlternatingLast(Of(heard, id), input);
    }
  }

  lemma DeliveredOf(delivered: seq<Input>, pending: seq<Input>, input: Input, id: Id)
    ensures Of(delivered + Of(pending, input.id) + [input], id)
         == if input.id == id then Of(delivered, id) + Of(pending, id) + [input] else Of(delivered, id)
  {
    OfAppend(delivered + Of(pending, input.id), input, id);
    OfConcat(delivered, Of(pending, input.id), id);
    OfOf(pending, input.id, id);
  }

  lemma {:induction false} OfOf(inputs: seq<Input>, id: Id, other: Id)
    ensures Of(Of(inputs, id), other) == if other == id then Of(inputs, id) else []
  {
    if inputs != [] {
      var n := |inputs| - 1;
      OfOf(inputs[..n], id, other);
      if inputs[n].id == id {
        OfAppend(Of(inputs[..n], id), inputs[n], other);
      }
    }
  }

  /** Hearing a release that has to wait. */
  lemma WaitNow(heard: seq<Input>, delivered: seq<Input>, pending: seq<Input>, input: Input, id: Id)
    requires Waiting(pending) && input.Up? && Faithful(heard, delivered, pending, id)
    ensures Faithful(heard + [input], delivered, Without(pending, input.id) + [input], id)
  {
    OfAppend(heard, input, id);
    OfAppend(Without(pending, input.id), input, id);
    WithoutOf(pending, input.id, id);
    if input.id == id {
      PendingIsUp(pending, id);
      UpAfterDown(Of(delivered, id), Of(pending, id), Of(heard, id), input);
    }
  }

  /** Behind a down no up of the same id waits. */
  lemma UpAfterDown(delivered: seq<Input>, waiting: seq<Input>, heard: seq<Input>, input: Input)
    requires Alternating(heard) ==> delivered + waiting == heard
    requires input.Up? && forall k :: 0 <= k < |waiting| ==> waiting[k].Up?
    ensures Alternating(heard + [input]) ==> delivered + ([] + [input]) == heard + [input]
  {
    if Alternating(heard + [input]) {
      AlternatingLast(heard, input);
      LastOfConcat(delivered, waiting);
    }
  }

  lemma LastOfConcat(a: seq<Input>, b: seq<Input>)
    ensures b != [] ==> (a + b)[|a + b| - 1] == b[|b| - 1]
  {
  }

  lemma {:induction false} PendingIsUp(pending: seq<Input>, id: Id)
    requires Waiting(pending)
    ensures forall k :: 0 <= k < |Of(pending, id)| ==> Of(pending, id)[k].Up?
  {
    if pending != [] {
      PendingIsUp(pending[..|pending| - 1], id);
    }
  }

  /** Delivering one waiting release. */
  lemma DeliverWaiting(heard: seq<Input>, delivered: seq<Input>, pending: seq<Input>, k: nat, id: Id)
    requires Waiting(pending) && k < |pending| && Faithful(heard, delivered, pending, id)
    ensures Faithful(heard, delivered + [pending[k]], Without(pending, pending[k].id), id)
  {
    OfAppend(delivered, pending[k], id);
    WithoutOf(pending, pending[k].id, id);
    WaitsOnce(pending, pending[k].id);
  }

  lemma ReplaceOf(pending: seq<Input>, k: nat, input: Input, other: Id)
    requires Waiting(pending) && k < |pending| && pending[k].id == input.id && input.Up?
    ensures Waiting(pending[k := input])
    ensures Of(pending[k := input], other) == if other == input.id then [input] else Of(pending, other)
  {
    var now := pending[k := input];
    assert Waiting(now);
    WaitsOnce(now, input.id);
    var a, b := pending[..k], pending[k + 1..];
    assert pending == a + [pending[k]] + b && now == a + [input] + b;
    OfConcat(a + [pending[k]], b, other);
    OfConcat(a + [input], b, other);
    OfAppend(a, pending[k], other);
    OfAppend(a, input, other);
    if other == input.id {
      assert now[k] == input;
    }
  }

  lemma ReplaceNow(heard: seq<Input>, delivered: seq<Input>, pending: seq<Input>, k: nat, input: Input, id: Id)
    requires Waiting(pending) && k < |pending| && pending[k].id == input.id && input.Up?
    requires Faithful(heard, delivered, pending, id)
    ensures Faithful(heard + [input], delivered, pending[k := input], id)
  {
    WaitNow(heard, delivered, pending, input, id);
    OfAppend(Without(pending, input.id), input, id);
    WithoutOf(pending, input.id, id);
    ReplaceOf(pending, k, input, id);
  }

  // ---------- The relay ----------

  predicate CanRelease(held: Held, tick: nat, tracking: bool) {
    held.ranGuest && (tracking || Elapsed(tick, held.at) >= MIN_PRESS_TICKS)
  }

  /** Held presses remember the tick they began at and whether a frame has run the guest since. */
  ghost predicate Timed(pressed: map<Id, Held>, from: map<Id, nat>, frames: seq<Frame>) {
    && pressed.Keys == from.Keys
    && forall id :: id in from ==>
         && from[id] <= |frames| && pressed[id].at == TickAt(frames, from[id])
         && (pressed[id].ranGuest <==> RanBetween(frames, from[id], |frames|))
  }

  /** Every waiting release belongs to a held press that may not end yet. */
  ghost predicate Unripe(pending: seq<Input>, pressed: map<Id, Held>, from: map<Id, nat>, frames: seq<Frame>)
    requires Timed(pressed, from, frames)
  {
    forall k :: 0 <= k < |pending| ==> pending[k].id in pressed && !Ripe(frames, from[pending[k].id], |frames|)
  }

  ghost predicate AllFaithful(heard: seq<Input>, delivered: seq<Input>, pending: seq<Input>) {
    forall id :: Faithful(heard, delivered, pending, id)
  }

  /** Marks the presses a frame has run the guest for. */
  function Marked(pressed: map<Id, Held>, ran: bool): (marked: map<Id, Held>)
    ensures marked.Keys == pressed.Keys
    ensures forall id :: id in pressed ==> marked[id] == if ran then pressed[id].(ranGuest := true) else pressed[id]
  {
    if ran then map id | id in pressed :: pressed[id].(ranGuest := true) else pressed
  }

  lemma MarkKeepsTimed(pressed: map<Id, Held>, from: map<Id, nat>, frames: seq<Frame>, frame: Frame)
    requires Timed(pressed, from, frames)
    ensures Timed(Marked(pressed, frame.Ran()), from, frames + [frame])
  {
    var more := frames + [frame];
    forall id | id in from
      ensures RanBetween(more, from[id], |more|) <==> RanBetween(frames, from[id], |frames|) || frame.Ran()
    {
      assert more[|frames|] == frame;
      assert forall k :: 0 <= k < |frames| ==> more[k] == frames[k];
      if RanBetween(frames, from[id], |frames|) {
        var k :| from[id] <= k < |frames| && frames[k].Ran();
        assert more[k].Ran();
      }
    }
  }

  lemma FaithDelivered(heard: seq<Input>, delivered: seq<Input>, pending: seq<Input>, input: Input)
    requires Waiting(pending) && AllFaithful(heard, delivered, pending)
    ensures AllFaithful(heard + [input], delivered + Of(pending, input.id) + [input], Without(pending, input.id))
  {
    forall id
      ensures Faithful(heard + [input], delivered + Of(pending, input.id) + [input], Without(pending, input.id), id)
    {
      DeliverNow(heard, delivered, pending, input, id);
    }
  }

  lemma FaithReplaced(heard: seq<Input>, delivered: seq<Input>, pending: seq<Input>, k: nat, input: Input)
    requires Waiting(pending) && k < |pending| && pending[k].id == input.id && input.Up?
             && AllFaithful(heard, delivered, pending)
    ensures AllFaithful(heard + [input], delivered, pending[k := input])
  {
    var now := pending[k := input];
    forall id ensures Faithful(heard + [input], delivered, now, id) {
      ReplaceNow(heard, delivered, pending, k, input, id);
    }
  }

  lemma FaithAppended(heard: seq<Input>, delivered: seq<Input>, pending: seq<Input>, input: Input)
    requires Waiting(pending) && input.Up? && AllFaithful(heard, delivered, pending)
    requires forall k :: 0 <= k < |pending| ==> pending[k].id != input.id
    ensures AllFaithful(heard + [input], delivered, pending + [input])
  {
    WithoutNothing(pending, input.id);
    forall id ensures Faithful(heard + [input], delivered, pending + [input], id) {
      WaitNow(heard, delivered, pending, input, id);
    }
  }

  lemma FaithWaited(heard: seq<Input>, delivered: seq<Input>, pending: seq<Input>, k: nat)
    requires Waiting(pending) && k < |pending| && AllFaithful(heard, delivered, pending)
    ensures AllFaithful(heard, delivered + [pending[k]], Without(pending, pending[k].id))
  {
    forall id ensures Faithful(heard, delivered + [pending[k]], Without(pending, pending[k].id), id) {
      DeliverWaiting(heard, delivered, pending, k, id);
    }
  }

  /** The presses and waiting releases between two messages. */
  ghost predicate Sound(pending: seq<Input>, pressed: map<Id, Held>, from: map<Id, nat>, frames: seq<Frame>) {
    Waiting(pending) && Timed(pressed, from, frames) && Unripe(pending, pressed, from, frames)
  }

  /** Ending a press removes it and its waiting release. */
  lemma EndPress(pending: seq<Input>, pressed: map<Id, Held>, from: map<Id, nat>, frames: seq<Frame>, id: Id)
    requires Sound(pending, pressed, from, frames)
    ensures Sound(Without(pending, id), pressed - {id}, from - {id}, frames)
  {
    WithoutKeeps(pending, id);
    var rest := Without(pending, id);
    forall k | 0 <= k < |rest| ensures rest[k].id in pressed - {id} && !Ripe(frames, from[rest[k].id], |frames|) {
      assert rest[k] in rest;
    }
  }

  /** Beginning a press leaves the others as they are. */
  lemma BeginPress(pending: seq<Input>, pressed: map<Id, Held>, from: map<Id, nat>, frames: seq<Frame>, id: Id)
    requires Sound(pending, pressed, from, frames) && id !in pressed
    ensures Sound(pending, pressed[id := Held(TickAt(frames, |frames|), false)], from[id := |frames|], frames)
  {
  }

  lemma HonestAppend(released: seq<Released>, frames: seq<Frame>, r: Released)
    requires Honest(released, frames) && r.at == |frames|
    requires r.from.Some? ==> r.from.value <= |frames| && (r.forced || Ripe(frames, r.from.value, |frames|))
    ensures Honest(released + [r], frames)
  {
  }

  lemma WaitingIsHeld(pending: seq<Input>, pressed: map<Id, Held>, from: map<Id, nat>, frames: seq<Frame>, k: nat)
    requires Sound(pending, pressed, from, frames) && k < |pending|
    ensures pending[k].id in pressed && pending[k].id in from && from[pending[k].id] <= |frames|
  {
  }

  lemma ReplaceSound(pending: seq<Input>, pressed: map<Id, Held>, from: map<Id, nat>, frames: seq<Frame>, k: nat,
                     input: Input)
    requires Sound(pending, pressed, from, frames) && k < |pending| && pending[k].id == input.id && input.Up?
    ensures Sound(pending[k := input], pressed, from, frames) && Of(pending[k := input], input.id) == [input]
  {
    ReplaceOf(pending, k, input, input.id);
    var now := pending[k := input];
    assert forall j :: 0 <= j < |now| ==> now[j].id == pending[j].id;
  }

  lemma AppendWaiting(pending: seq<Input>, input: Input)
    requires Waiting(pending) && input.Up? && Of(pending, input.id) == []
    ensures Waiting(pending + [input]) && Of(pending + [input], input.id) == [input]
  {
    WaitsOnce(pending, input.id);
    OfAppend(pending, input, input.id);
  }

  lemma AppendSound(pending: seq<Input>, pressed: map<Id, Held>, from: map<Id, nat>, frames: seq<Frame>, input: Input)
    requires Sound(pending, pressed, from, frames) && input.Up? && Of(pending, input.id) == []
    requires input.id in from && from[input.id] <= |frames| && !Ripe(frames, from[input.id], |frames|)
    ensures Sound(pending + [input], pressed, from, frames) && Of(pending + [input], input.id) == [input]
  {
    AppendWaiting(pending, input);
    var now := pending + [input];
    forall k | 0 <= k < |now| ensures now[k].id in pressed && !Ripe(frames, from[now[k].id], |frames|) {
      assert k < |pending| ==> now[k] == pending[k];
    }
  }

  /** Only a press that may not end yet has a release waiting. */
  lemma NotWaiting(pending: seq<Input>, pressed: map<Id, Held>, from: map<Id, nat>, frames: seq<Frame>, id: Id)
    requires Sound(pending, pressed, from, frames)
    requires id in from ==> from[id] <= |frames| && Ripe(frames, from[id], |frames|)
    ensures Of(pending, id) == []
  {
    WaitsOnce(pending, id);
  }

  lemma HeldSince(pending: seq<Input>, pressed: map<Id, Held>, from: map<Id, nat>, frames: seq<Frame>, id: Id)
    requires Sound(pending, pressed, from, frames) && id in pressed
    ensures id in from && from[id] <= |frames|
    ensures CanRelease(pressed[id], TickAt(frames, |frames|), TrackingAt(frames, |frames|))
            <==> Ripe(frames, from[id], |frames|)
  {
  }

  /** The same in the middle of a frame: every waiting release belongs to a held press. */
  ghost predicate Owned(pending: seq<Input>, pressed: map<Id, Held>, from: map<Id, nat>, frames: seq<Frame>) {
    && Waiting(pending) && Timed(pressed, from, frames)
    && forall input :: input in pending ==> input.id in pressed && input.id in from
  }

  lemma HeldRipe(pending: seq<Input>, pressed: map<Id, Held>, from: map<Id, nat>, frames: seq<Frame>, input: Input)
    requires Owned(pending, pressed, from, frames) && input in pending
    ensures input.id in pressed && input.id in from && from[input.id] <= |frames|
    ensures CanRelease(pressed[input.id], TickAt(frames, |frames|), TrackingAt(frames, |frames|))
       <==> Ripe(frames, from[input.id], |frames|)
  {
  }

  lemma EndOwned(pending: seq<Input>, pressed: map<Id, Held>, from: map<Id, nat>, frames: seq<Frame>, id: Id)
    requires Owned(pending, pressed, from, frames)
    ensures Owned(Without(pending, id), pressed - {id}, from - {id}, frames)
    ensures forall input :: input in Without(pending, id) <==> input in pending && input.id != id
  {
    WithoutKeeps(pending, id);
  }

  lemma FaithTaken(heard: seq<Input>, delivered: seq<Input>, pending: seq<Input>, input: Input)
    requires Waiting(pending) && input in pending && AllFaithful(heard, delivered, pending)
    ensures AllFaithful(heard, delivered + [input], Without(pending, input.id))
  {
    var k: nat :| k < |pending| && pending[k] == input;
    FaithWaited(heard, delivered, pending, k);
  }

  // ---------- The releases a frame delivers ----------

  /** The releases that go on waiting: the guest is still running, and their press may not end yet. */
  ghost function Early(from: map<Id, nat>, frames: seq<Frame>, running: bool): iset<Input> {
    iset input: Input | running && input.id in from && from[input.id] <= |frames|
        && !Ripe(frames, from[input.id], |frames|)
  }

  ghost function Staying(waiting: seq<Input>, early: iset<Input>): seq<Input> {
    if waiting == [] then []
    else
      var before, last := Staying(waiting[..|waiting| - 1], early), waiting[|waiting| - 1];
      if last in early then before + [last] else before
  }

  ghost function Leaving(waiting: seq<Input>, early: iset<Input>): seq<Input> {
    if waiting == [] then []
    else
      var before, last := Leaving(waiting[..|waiting| - 1], early), waiting[|waiting| - 1];
      if last in early then before else before + [last]
  }

  /** The records of releases delivered at one frame. */
  function Records(inputs: seq<Input>, from: map<Id, nat>, at: nat, forced: bool): seq<Released> {
    seq(|inputs|, k requires 0 <= k < |inputs| =>
      Released(inputs[k], if inputs[k].id in from then Some(from[inputs[k].id]) else None, at, forced))
  }

  function Ids(inputs: seq<Input>): set<Id> {
    set k | 0 <= k < |inputs| :: inputs[k].id
  }

  /** Every waiting release is decided by its own press, and the two parts keep the order. */
  lemma SplitExactly(waiting: seq<Input>, early: iset<Input>)
    ensures forall input :: input in Staying(waiting, early) <==> input in waiting && input in early
    ensures forall input :: input in Leaving(waiting, early) <==> input in waiting && input !in early
    ensures multiset(Staying(waiting, early)) + multiset(Leaving(waiting, early)) == multiset(waiting)
  {
    SplitCounts(waiting, early);
    forall input ensures input in Staying(waiting, early) <==> input in waiting && input in early
                 ensures input in Leaving(waiting, early) <==> input in waiting && input !in early
    {
      SplitMember(waiting, early, input);
    }
  }

  lemma {:induction false} SplitMember(waiting: seq<Input>, early: iset<Input>, input: Input)
    ensures input in Staying(waiting, early) <==> input in waiting && input in early
    ensures input in Leaving(waiting, early) <==> input in waiting && input !in early
  {
    if waiting != [] {
      var front, last := waiting[..|waiting| - 1], waiting[|waiting| - 1];
      SplitMember(front, early, input);
      assert waiting == front + [last];
    }
  }

  lemma SplitCounts(waiting: seq<Input>, early: iset<Input>)
    ensures multiset(Staying(waiting, early)) + multiset(Leaving(waiting, early)) == multiset(waiting)
  {
    forall input
      ensures multiset(Staying(waiting, early))[input] + multiset(Leaving(waiting, early))[input]
              == multiset(waiting)[input]
    {
      SplitCount(waiting, early, input);
    }
  }

  lemma {:induction false} SplitCount(waiting: seq<Input>, early: iset<Input>, input: Input)
    ensures multiset(Staying(waiting, early))[input] + multiset(Leaving(waiting, early))[input]
            == multiset(waiting)[input]
  {
    if waiting != [] {
      var front, last := waiting[..|waiting| - 1], waiting[|waiting| - 1];
      SplitCount(front, early, input);
      CountLast(front, last, input);
      assert waiting == front + [last];
      if last in early {
        CountLast(Staying(front, early), last, input);
      } else {
        CountLast(Leaving(front, early), last, input);
      }
    }
  }

  lemma CountLast(front: seq<Input>, last: Input, input: Input)
    ensures multiset(front + [last])[input] == multiset(front)[input] + if last == input then 1 else 0
  {
  }

  /** Taking out one waiting release. */
  lemma WithoutOne(a: seq<Input>, input: Input, b: seq<Input>)
    requires Waiting(a + [input] + b)
    ensures Without(a + [input] + b, input.id) == a + b
  {
    var all := a + [input] + b;
    assert forall k :: 0 <= k < |a| ==> all[k] == a[k];
    assert all[|a|] == input;
    assert forall k :: 0 <= k < |b| ==> all[|a| + 1 + k] == b[k];
    WithoutNothing(a, input.id);
    WithoutNothing(b, input.id);
    WithoutConcat(a + [input], b, input.id);
    assert (a + [input])[..|a|] == a;
  }

  lemma {:induction false} WithoutConcat(a: seq<Input>, b: seq<Input>, id: Id)
    ensures Without(a + b, id) == Without(a, id) + Without(b, id)
  {
    if b == [] {
      assert a + b == a;
    } else {
      assert (a + b)[..|a + b| - 1] == a + b[..|b| - 1];
      WithoutConcat(a, b[..|b| - 1], id);
    }
  }

  lemma RecordsAppend(inputs: seq<Input>, input: Input, from: map<Id, nat>, at: nat, forced: bool)
    ensures Records(inputs + [input], from, at, forced)
         == Records(inputs, from, at, forced)
            + [Released(input, if input.id in from then Some(from[input.id]) else None, at, forced)]
    ensures Ids(inputs + [input]) == Ids(inputs) + {input.id}
  {
    var more := inputs + [input];
    forall id ensures id in Ids(more) <==> id in Ids(inputs) + {input.id} {
      if id in Ids(inputs) {
        var k :| 0 <= k < |inputs| && inputs[k].id == id;
        assert more[k].id == id;
      }
      assert more[|inputs|].id == input.id;
    }
  }

  // ---------- What one message does ----------

  /** The relay's waiting releases, the input applied, and the held presses: what is stored of them,
      and at which frame each began. */
  datatype Relayed = Relayed(pending: seq<Input>, delivered: seq<Input>, pressed: map<Id, Held>,
                             from: map<Id, nat>, released: seq<Released>)

  /** A waiting release of the pressed id is delivered first, and ends its press; then the down. */
  function TakenBack(r: Relayed, input: Input, at: nat): Relayed {
    var waiting := Of(r.pending, input.id);
    if waiting == [] then r.(delivered := r.delivered + [input])
    else
      Relayed(Without(r.pending, input.id), r.delivered + waiting + [input],
              r.pressed - {input.id}, r.from - {input.id},
              r.released + Records(waiting, r.from, at, true))
  }

  function HeldDown(r: Relayed, id: Id, at: nat, tick: nat): Relayed {
    if id in r.pressed then r else r.(pressed := r.pressed[id := Held(tick, false)], from := r.from[id := at])
  }

  /** A release is delivered, and its press ends; none of its id goes on waiting. */
  function Finished(r: Relayed, input: Input, at: nat, forced: bool): Relayed {
    Relayed(Without(r.pending, input.id), r.delivered + [input], r.pressed - {input.id}, r.from - {input.id},
            r.released + Records([input], r.from, at, forced))
  }

  /** A release takes the place of one that waits for the same id, or waits behind the others. */
  function Awaiting(pending: seq<Input>, input: Input): seq<Input> {
    if pending == [] then [input]
    else if pending[0].id == input.id then [input] + pending[1..]
    else [pending[0]] + Awaiting(pending[1..], input)
  }

  lemma {:induction false} AwaitingIs(pending: seq<Input>, input: Input, k: Option<nat>)
    requires if k.Some? then k.value < |pending| && pending[k.value].id == input.id
                             && forall j :: 0 <= j < k.value ==> pending[j].id != input.id
             else forall j :: 0 <= j < |pending| ==> pending[j].id != input.id
    ensures Awaiting(pending, input) == if k.Some? then pending[k.value := input] else pending + [input]
  {
    if pending != [] && k != Some(0) {
      AwaitingIs(pending[1..], input, if k.Some? then Some(k.value - 1) else None);
      assert pending == [pending[0]] + pending[1..];
    }
  }

  /** What a frame does: the early releases go on waiting, the others are delivered in order. */
  ghost function Outcome(r: Relayed, early: iset<Input>, at: nat, forced: bool): Relayed {
    var left := Leaving(r.pending, early);
    Relayed(Staying(r.pending, early), r.delivered + left, r.pressed - Ids(left), r.from - Ids(left),
            r.released + Records(left, r.from, at, forced))
  }

  // ---------- What every message keeps ----------

  /** Between two messages. */
  ghost predicate Good(r: Relayed, heard: seq<Input>, frames: seq<Frame>) {
    && Sound(r.pending, r.pressed, r.from, frames) && AllFaithful(heard, r.delivered, r.pending)
    && Honest(r.released, frames) && Recorded(r.released, r.delivered)
  }

  /** In the middle of a frame. */
  ghost predicate Midway(r: Relayed, heard: seq<Input>, frames: seq<Frame>) {
    && Owned(r.pending, r.pressed, r.from, frames) && AllFaithful(heard, r.delivered, r.pending)
    && Honest(r.released, frames) && Recorded(r.released, r.delivered)
  }

  lemma TakenBackIsRecorded(r: Relayed, frames: seq<Frame>, input: Input)
    requires Sound(r.pending, r.pressed, r.from, frames) && input.Down?
    requires Honest(r.released, frames) && Recorded(r.released, r.delivered)
    ensures var t := TakenBack(r, input, |frames|); Honest(t.released, frames) && Recorded(t.released, t.delivered)
  {
    var id := input.id;
    var waiting := Of(r.pending, id);
    WaitsOnce(r.pending, id);
    if waiting == [] {
      NoUps([input]);
      RecordedMore(r.released, r.delivered, [], [input]);
      assert r.released + [] == r.released;
    } else {
      var k :| 0 <= k < |r.pending| && r.pending[k].id == id;
      WaitingIsHeld(r.pending, r.pressed, r.from, frames, k);
      var record := Released(r.pending[k], Some(r.from[id]), |frames|, true);
      HonestAppend(r.released, frames, record);
      RecordedOne(record, [input]);
      RecordedMore(r.released, r.delivered, [record], [record.up] + [input]);
      assert Records(waiting, r.from, |frames|, true) == [record];
      assert r.delivered + ([record.up] + [input]) == r.delivered + waiting + [input];
    }
  }

  lemma TakenBackIsGood(r: Relayed, heard: seq<Input>, frames: seq<Frame>, input: Input)
    requires Good(r, heard, frames) && input.Down?
    ensures Good(TakenBack(r, input, |frames|), heard + [input], frames)
  {
    TakenBackIsRecorded(r, frames, input);
    FaithDelivered(heard, r.delivered, r.pending, input);
    if Of(r.pending, input.id) == [] {
      WaitsOnce(r.pending, input.id);
      WithoutNothing(r.pending, input.id);
      assert r.delivered + [] + [input] == r.delivered + [input];
    } else {
      EndPress(r.pending, r.pressed, r.from, frames, input.id);
    }
  }

  lemma HeldDownIsGood(r: Relayed, heard: seq<Input>, frames: seq<Frame>, id: Id)
    requires Good(r, heard, frames)
    ensures Good(HeldDown(r, id, |frames|, TickAt(frames, |frames|)), heard, frames)
  {
    if id !in r.pressed {
      BeginPress(r.pending, r.pressed, r.from, frames, id);
    }
  }

  lemma PressIsGood(r: Relayed, heard: seq<Input>, frames: seq<Frame>, input: Input)
    requires Good(r, heard, frames) && input.Down?
    ensures Good(HeldDown(TakenBack(r, input, |frames|), input.id, |frames|, TickAt(frames, |frames|)),
                 heard + [input], frames)
  {
    TakenBackIsGood(r, heard, frames, input);
    HeldDownIsGood(TakenBack(r, input, |frames|), heard + [input], frames, input.id);
  }

  lemma RecordsOne(r: Relayed, frames: seq<Frame>, input: Input, forced: bool)
    requires input.Up? && Honest(r.released, frames) && Recorded(r.released, r.delivered)
    requires input.id in r.from ==>
               r.from[input.id] <= |frames| && (forced || Ripe(frames, r.from[input.id], |frames|))
    ensures var t := Finished(r, input, |frames|, forced);
            Honest(t.released, frames) && Recorded(t.released, t.delivered)
  {
    var record := Records([input], r.from, |frames|, forced)[0];
    HonestAppend(r.released, frames, record);
    RecordedOne(record, []);
    RecordedMore(r.released, r.delivered, [record], [input]);
    assert Records([input], r.from, |frames|, forced) == [record];
  }

  lemma FinishedIsGood(r: Relayed, heard: seq<Input>, frames: seq<Frame>, input: Input)
    requires Good(r, heard, frames) && input.Up?
    requires input.id in r.from ==> r.from[input.id] <= |frames| && Ripe(frames, r.from[input.id], |frames|)
    ensures Good(Finished(r, input, |frames|, false), heard + [input], frames)
  {
    RecordsOne(r, frames, input, false);
    NotWaiting(r.pending, r.pressed, r.from, frames, input.id);
    FaithDelivered(heard, r.delivered, r.pending, input);
    assert r.delivered + [] + [input] == r.delivered + [input];
    EndPress(r.pending, r.pressed, r.from, frames, input.id);
  }

  lemma WaitedIsGood(r: Relayed, heard: seq<Input>, frames: seq<Frame>, input: Input, k: Option<nat>)
    requires Good(r, heard, frames) && input.Up?
    requires input.id in r.from && r.from[input.id] <= |frames| && !Ripe(frames, r.from[input.id], |frames|)
    requires if k.Some? then k.value < |r.pending| && r.pending[k.value].id == input.id
             else Of(r.pending, input.id) == [] && forall j :: 0 <= j < |r.pending| ==> r.pending[j].id != input.id
    ensures Good(r.(pending := if k.Some? then r.pending[k.value := input] else r.pending + [input]),
                 heard + [input], frames)
  {
    if k.Some? {
      FaithReplaced(heard, r.delivered, r.pending, k.value, input);
      ReplaceSound(r.pending, r.pressed, r.from, frames, k.value, input);
    } else {
      FaithAppended(heard, r.delivered, r.pending, input);
      AppendSound(r.pending, r.pressed, r.from, frames, input);
    }
  }

  lemma FinishedIsMidway(r: Relayed, heard: seq<Input>, frames: seq<Frame>, input: Input, forced: bool)
    requires Midway(r, heard, frames) && input in r.pending && input.id in r.from && r.from[input.id] <= |frames|
    requires forced || Ripe(frames, r.from[input.id], |frames|)
    ensures Midway(Finished(r, input, |frames|, forced), heard, frames)
  {
    FaithTaken(heard, r.delivered, r.pending, input);
    EndOwned(r.pending, r.pressed, r.from, frames, input.id);
    RecordsOne(r, frames, input, forced);
  }

  // ---------- A frame, release by release ----------

  /** The waiting releases, decided one after the other: the first `i` of them. */
  ghost function Decided(r: Relayed, i: nat, early: iset<Input>, at: nat, forced: bool): Relayed
    requires i <= |r.pending|
  {
    if i == 0 then r
    else
      var d, input := Decided(r, i - 1, early, at, forced), r.pending[i - 1];
      if input in early then d else Finished(d, input, at, forced)
  }

  /** The same at one stroke. */
  ghost function Part(r: Relayed, i: nat, early: iset<Input>, at: nat, forced: bool): Relayed
    requires i <= |r.pending|
  {
    var left := Leaving(r.pending[..i], early);
    Relayed(Staying(r.pending[..i], early) + r.pending[i..], r.delivered + left,
            r.pressed - Ids(left), r.from - Ids(left),
            r.released + Records(left, r.from, at, forced))
  }

  lemma PartNone(r: Relayed, early: iset<Input>, at: nat, forced: bool)
    ensures Part(r, 0, early, at, forced) == r
  {
    assert r.pending[..0] == [] && r.pending[0..] == r.pending;
    assert r.delivered + [] == r.delivered && r.released + [] == r.released;
    assert Ids([]) == {} && r.from - {} == r.from && r.pressed - {} == r.pressed;
  }

  lemma PartAll(r: Relayed, early: iset<Input>, at: nat, forced: bool)
    ensures Part(r, |r.pending|, early, at, forced) == Outcome(r, early, at, forced)
  {
    assert r.pending[..|r.pending|] == r.pending && r.pending[|r.pending|..] == [];
    assert Staying(r.pending, early) + [] == Staying(r.pending, early);
  }

  lemma LeavesWaiting(waiting: seq<Input>, i: nat, early: iset<Input>)
    requires i < |waiting| && waiting[i] !in early && Waiting(Staying(waiting[..i], early) + waiting[i..])
    ensures Staying(waiting[..i + 1], early) + waiting[i + 1..]
            == Without(Staying(waiting[..i], early) + waiting[i..], waiting[i].id)
  {
    var before := Staying(waiting[..i], early);
    assert waiting[..i + 1][..i] == waiting[..i];
    assert Staying(waiting[..i + 1], early) == before;
    assert before + waiting[i..] == before + [waiting[i]] + waiting[i + 1..];
    WithoutOne(before, waiting[i], waiting[i + 1..]);
  }

  lemma LeavesLater(waiting: seq<Input>, i: nat, early: iset<Input>)
    requires i < |waiting| && waiting[i] !in early
    ensures Leaving(waiting[..i + 1], early) == Leaving(waiting[..i], early) + [waiting[i]]
  {
    assert waiting[..i + 1][..i] == waiting[..i];
  }

  /** The next release's press is still the one that was held when the frame began. */
  lemma StillHeld(waiting: seq<Input>, i: nat, early: iset<Input>)
    requires i < |waiting| && Waiting(waiting)
    ensures waiting[i].id !in Ids(Leaving(waiting[..i], early))
  {
    var left := Leaving(waiting[..i], early);
    SplitExactly(waiting[..i], early);
    forall k | 0 <= k < |left| ensures left[k].id != waiting[i].id {
      assert left[k] in waiting[..i];
    }
  }

  lemma PartStays(r: Relayed, i: nat, early: iset<Input>, at: nat, forced: bool)
    requires i < |r.pending| && r.pending[i] in early
    ensures Part(r, i + 1, early, at, forced) == Part(r, i, early, at, forced)
  {
    var waiting := r.pending;
    assert waiting[..i + 1][..i] == waiting[..i];
    assert Leaving(waiting[..i + 1], early) == Leaving(waiting[..i], early);
    assert Staying(waiting[..i + 1], early) + waiting[i + 1..] == Staying(waiting[..i], early) + waiting[i..];
  }

  lemma PartLeaves(r: Relayed, i: nat, early: iset<Input>, at: nat, forced: bool)
    requires i < |r.pending| && r.pending[i] !in early && Waiting(r.pending)
    requires Waiting(Part(r, i, early, at, forced).pending)
    ensures Part(r, i + 1, early, at, forced) == Finished(Part(r, i, early, at, forced), r.pending[i], at, forced)
  {
    var input, left := r.pending[i], Leaving(r.pending[..i], early);
    LeavesWaiting(r.pending, i, early);
    LeavesLater(r.pending, i, early);
    StillHeld(r.pending, i, early);
    RecordsAppend(left, input, r.from, at, forced);
    assert Records([input], r.from - Ids(left), at, forced) == Records([input], r.from, at, forced);
    assert r.from - Ids(left) - {input.id} == r.from - (Ids(left) + {input.id});
    assert r.pressed - Ids(left) - {input.id} == r.pressed - (Ids(left) + {input.id});
  }

  lemma PartMore(r: Relayed, i: nat, early: iset<Input>, at: nat, forced: bool)
    requires i < |r.pending| && Waiting(r.pending) && Waiting(Part(r, i, early, at, forced).pending)
    ensures var before := Part(r, i, early, at, forced);
            Part(r, i + 1, early, at, forced)
            == if r.pending[i] in early then before else Finished(before, r.pending[i], at, forced)
    ensures Waiting(Part(r, i + 1, early, at, forced).pending)
  {
    if r.pending[i] in early {
      PartStays(r, i, early, at, forced);
    } else {
      PartLeaves(r, i, early, at, forced);
      WithoutKeeps(Part(r, i, early, at, forced).pending, r.pending[i].id);
    }
  }

  lemma {:induction false} DecidedExactly(r: Relayed, i: nat, early: iset<Input>, at: nat, forced: bool)
    requires i <= |r.pending| && Waiting(r.pending)
    ensures Decided(r, i, early, at, forced) == Part(r, i, early, at, forced)
    ensures Waiting(Part(r, i, early, at, forced).pending)
  {
    if i == 0 {
      PartNone(r, early, at, forced);
    } else {
      DecidedExactly(r, i - 1, early, at, forced);
      PartMore(r, i - 1, early, at, forced);
    }
  }

  /** One after the other or at one stroke, a frame does the same. */
  lemma DecidedIsOutcome(r: Relayed, early: iset<Input>, at: nat, forced: bool)
    requires Waiting(r.pending)
    ensures Decided(r, |r.pending|, early, at, forced) == Outcome(r, early, at, forced)
  {
    DecidedExactly(r, |r.pending|, early, at, forced);
    PartAll(r, early, at, forced);
  }

  /** When the first `i` are decided, the next release still waits, and the stored state decides it as
      its own press demands. */
  ghost predicate Decision(r: Relayed, i: nat, frames: seq<Frame>, running: bool, early: iset<Input>)
    requires i < |r.pending|
  {
    var d, input := Decided(r, i, early, |frames|, !running), r.pending[i];
    && input in d.pending && input.id in d.pressed && input.id in d.from && d.from[input.id] <= |frames|
    && (input !in early <==> !running || Ripe(frames, d.from[input.id], |frames|))
    && (Ripe(frames, d.from[input.id], |frames|) <==>
          CanRelease(d.pressed[input.id], TickAt(frames, |frames|), TrackingAt(frames, |frames|)))
  }

  ghost predicate Decisions(r: Relayed, frames: seq<Frame>, running: bool, early: iset<Input>) {
    forall i :: 0 <= i < |r.pending| ==> Decision(r, i, frames, running, early)
  }

  lemma DecideOne(r: Relayed, i: nat, heard: seq<Input>, frames: seq<Frame>, running: bool, early: iset<Input>)
    requires Midway(r, heard, frames) && i < |r.pending| && early == Early(r.from, frames, running)
    requires Midway(Decided(r, i, early, |frames|, !running), heard, frames)
    ensures Decision(r, i, frames, running, early)
  {
    var d, input := Decided(r, i, early, |frames|, !running), r.pending[i];
    DecidedExactly(r, i, early, |frames|, !running);
    assert r.pending[i..][0] == input;
    StillHeld(r.pending, i, early);
    HeldRipe(d.pending, d.pressed, d.from, frames, input);
  }

  lemma AllDecisions(r: Relayed, heard: seq<Input>, frames: seq<Frame>, running: bool)
    requires Midway(r, heard, frames)
    ensures Decisions(r, frames, running, Early(r.from, frames, running))
  {
    var early := Early(r.from, frames, running);
    forall i | 0 <= i < |r.pending| ensures Decision(r, i, frames, running, early) {
      DecidedIsMidway(r, i, heard, frames, running);
      DecideOne(r, i, heard, frames, running, early);
    }
  }

  /** Every state in the middle of a frame. */
  lemma {:induction false} DecidedIsMidway(r: Relayed, i: nat, heard: seq<Input>, frames: seq<Frame>, running: bool)
    requires Midway(r, heard, frames) && i <= |r.pending|
    ensures Midway(Decided(r, i, Early(r.from, frames, running), |frames|, !running), heard, frames)
  {
    if i > 0 {
      var early := Early(r.from, frames, running);
      DecidedIsMidway(r, i - 1, heard, frames, running);
      DecideOne(r, i - 1, heard, frames, running, early);
      if r.pending[i - 1] !in early {
        FinishedIsMidway(Decided(r, i - 1, early, |frames|, !running), heard, frames, r.pending[i - 1], !running);
      }
    }
  }

  lemma OutcomeIsUnripe(r: Relayed, frames: seq<Frame>, running: bool, t: Relayed)
    requires t == Outcome(r, Early(r.from, frames, running), |frames|, !running)
    requires Owned(t.pending, t.pressed, t.from, frames)
    ensures Sound(t.pending, t.pressed, t.from, frames)
  {
    SplitExactly(r.pending, Early(r.from, frames, running));
    forall k | 0 <= k < |t.pending|
      ensures t.pending[k].id in t.pressed && !Ripe(frames, t.from[t.pending[k].id], |frames|)
    {
      assert t.pending[k] in t.pending && t.pending[k] in Early(r.from, frames, running);
    }
  }

  lemma OutcomeIsGood(r: Relayed, heard: seq<Input>, frames: seq<Frame>, running: bool)
    requires Midway(r, heard, frames)
    ensures Good(Outcome(r, Early(r.from, frames, running), |frames|, !running), heard, frames)
  {
    DecidedIsMidway(r, |r.pending|, heard, frames, running);
    DecidedIsOutcome(r, Early(r.from, frames, running), |frames|, !running);
    OutcomeIsUnripe(r, frames, running, Outcome(r, Early(r.from, frames, running), |frames|, !running));
  }

  lemma FrameIsMidway(r: Relayed, heard: seq<Input>, frames: seq<Frame>, frame: Frame)
    requires Good(r, heard, frames)
    ensures Midway(r.(pressed := Marked(r.pressed, frame.Ran())), heard, frames + [frame])
  {
    MarkKeepsTimed(r.pressed, r.from, frames, frame);
    FrameKeepsHonest(r.released, frames, frame);
  }

  /** What the worker is told: host input, or a frame the guest ran. */
  datatype Event = Host(input: Input) | Ran(frame: Frame)

  function HeardOf(event: Event): seq<Input> { if event.Host? then [event.input] else [] }

  function FramesOf(event: Event): seq<Frame> { if event.Ran? then [event.frame] else [] }

  /** What one event does to the relay, after the given frames. */
  ghost function Next(r: Relayed, frames: seq<Frame>, event: Event): Relayed {
    match event
    case Host(input) =>
      if input.Down? then HeldDown(TakenBack(r, input, |frames|), input.id, |frames|, TickAt(frames, |frames|))
      else if input in Early(r.from, frames, true) then r.(pending := Awaiting(r.pending, input))
      else Finished(r, input, |frames|, false)
    case Ran(frame) =>
      Outcome(r.(pressed := Marked(r.pressed, frame.Ran())), Early(r.from, frames + [frame], frame.running),
              |frames| + 1, !frame.running)
  }

  class InputRelay {
    var guestTick: nat
    var uiTracking: bool
    var pressed: map<Id, Held>
    var pending: seq<Input>

    // The input applied to the machine so far.
    var delivered: seq<Input>

    ghost var heard: seq<Input>
    ghost var frames: seq<Frame>
    ghost var from: map<Id, nat>
    ghost var released: seq<Released>

    ghost function Now(): Relayed
      reads this
    {
      Relayed(pending, delivered, pressed, from, released)
    }

    ghost predicate Clocked()
      reads this
    {
      guestTick == TickAt(frames, |frames|) && uiTracking == TrackingAt(frames, |frames|)
    }

    ghost predicate Valid()
      reads this
    {
      Clocked() && Good(Now(), heard, frames)
    }

    constructor ()
      ensures Valid() && heard == [] && frames == [] && Now() == Relayed([], [], map[], map[], [])
    {
      guestTick, uiTracking, pressed, pending := 0, false, map[], [];
      heard, delivered, frames, from, released := [], [], [], map[], [];
    }

    method Find(id: Id) returns (k: Option<nat>)
      requires Waiting(pending)
      ensures k.Some? ==> k.value < |pending| && pending[k.value].id == id && Of(pending, id) == [pending[k.value]]
                          && forall j :: 0 <= j < k.value ==> pending[j].id != id
      ensures k.None? ==> Of(pending, id) == [] && forall j :: 0 <= j < |pending| ==> pending[j].id != id
    {
      WaitsOnce(pending, id);
      for i := 0 to |pending|
        invariant forall j :: 0 <= j < i ==> pending[j].id != id
      {
        if pending[i].id == id {
          return Some(i);
        }
      }
      k := None;
    }

    /** A press ends whatever release still waits for its id, then goes down. */
    method Press(input: Input)
      requires Valid() && input.Down?
      modifies this
      ensures Valid() && frames == old(frames) && heard == old(heard) + [input]
      ensures Now() == HeldDown(TakenBack(old(Now()), input, |frames|), input.id, |frames|, TickAt(frames, |frames|))
    {
      PressIsGood(Now(), heard, frames, input);
      heard := heard + [input];
      GoDown(input);
    }

    method GoDown(input: Input)
      requires Waiting(pending)
      modifies this`pressed, this`pending, this`from, this`released, this`delivered
      ensures Now() == HeldDown(TakenBack(old(Now()), input, |frames|), input.id, |frames|, guestTick)
    {
      TakeBack(input);
      Hold(input.id);
    }

    method Hold(id: Id)
      modifies this`pressed, this`from
      ensures Now() == HeldDown(old(Now()), id, |frames|, guestTick)
    {
      if id !in pressed {
        pressed := pressed[id := Held(guestTick, false)];
        from := from[id := |frames|];
      }
    }

    method TakeBack(input: Input)
      requires Waiting(pending)
      modifies this`pressed, this`pending, this`from, this`released, this`delivered
      ensures Now() == TakenBack(old(Now()), input, |frames|)
    {
      var waiting := Find(input.id);
      if waiting.Some? {
        released := released + Records([pending[waiting.value]], from, |frames|, true);
        delivered := delivered + [pending[waiting.value]] + [input];
        pending := Without(pending, input.id);
        pressed, from := pressed - {input.id}, from - {input.id};
      } else {
        delivered := delivered + [input];
      }
    }

    /** A release is delivered at once unless its press is held and may not end yet. */
    method Release(input: Input)
      requires Valid() && input.Up?
      modifies this
      ensures Valid() && frames == old(frames) && heard == old(heard) + [input]
      ensures Now() == if input in Early(old(from), frames, true)
                       then old(Now()).(pending := Awaiting(old(pending), input))
                       else Finished(old(Now()), input, |frames|, false)
    {
      if input.id in pressed {
        HeldSince(pending, pressed, from, frames, input.id);
      }
      if input.id in pressed && !CanRelease(pressed[input.id], guestTick, uiTracking) {
        Wait(input);
      } else {
        FinishedIsGood(Now(), heard, frames, input);
        Finish(input, false);
      }
      heard := heard + [input];
    }

    method Wait(input: Input)
      requires Valid() && input.Up? && input.id in from && from[input.id] <= |frames|
      requires !Ripe(frames, from[input.id], |frames|)
      modifies this`pending
      ensures Now() == old(Now()).(pending := Awaiting(old(pending), input)) && Good(Now(), heard + [input], frames)
    {
      var waiting := Find(input.id);
      AwaitingIs(pending, input, waiting);
      WaitedIsGood(Now(), heard, frames, input, waiting);
      if waiting.Some? {
        pending := pending[waiting.value := input];
      } else {
        pending := pending + [input];
      }
    }

    method Finish(input: Input, ghost forced: bool)
      modifies this`pressed, this`pending, this`delivered, this`from, this`released
      ensures Now() == Finished(old(Now()), input, |frames|, forced)
    {
      released := released + Records([input], from, |frames|, forced);
      delivered, pending := delivered + [input], Without(pending, input.id);
      pressed, from := pressed - {input.id}, from - {input.id};
    }

    /** A frame takes the guest's clock, notes whether the guest ran, and delivers exactly the
        waiting releases that may now end, or all of them when the guest has stopped, in order. */
    method RunFrame(frame: Frame)
      requires Valid()
      modifies this
      ensures Valid() && frames == old(frames) + [frame] && heard == old(heard)
      ensures Now() == Outcome(old(Now()).(pressed := Marked(old(pressed), frame.Ran())),
                               Early(old(from), frames, frame.running), |frames|, !frame.running)
    {
      FrameIsMidway(Now(), heard, frames, frame);
      guestTick, uiTracking := frame.tick, frame.tracking;
      pressed := Marked(pressed, frame.Ran());
      frames := frames + [frame];
      AllDecisions(Now(), heard, frames, frame.running);
      OutcomeIsGood(Now(), heard, frames, frame.running);
      DeliverDue(frame.running, Early(from, frames, frame.running));
    }

    method DeliverDue(running: bool, ghost early: iset<Input>)
      requires Clocked() && Waiting(pending) && Decisions(Now(), frames, running, early)
      modifies this`pressed, this`pending, this`delivered, this`from, this`released
      ensures Now() == Outcome(old(Now()), early, |frames|, !running)
    {
      var waiting := pending;
      ghost var start := Now();
      for i := 0 to |waiting|
        invariant Now() == Decided(start, i, early, |frames|, !running)
      {
        assert Decision(start, i, frames, running, early);
        Decide(waiting[i], running, start, i, early);
      }
      DecidedIsOutcome(start, early, |frames|, !running);
    }

    method Decide(input: Input, running: bool, ghost start: Relayed, ghost i: nat, ghost early: iset<Input>)
      requires Clocked() && i < |start.pending| && input == start.pending[i]
               && Decision(start, i, frames, running, early)
      requires Now() == Decided(start, i, early, |frames|, !running)
      modifies this`pressed, this`pending, this`delivered, this`from, this`released
      ensures Now() == Decided(start, i + 1, early, |frames|, !running)
    {
      if !running || CanRelease(pressed[input.id], guestTick, uiTracking) {
        Finish(input, !running);
      }
    }

    method Handle(event: Event)
      requires Valid()
      modifies this
      ensures Valid() && Now() == Next(old(Now()), old(frames), event)
      ensures heard == old(heard) + HeardOf(event) && frames == old(frames) + FramesOf(event)
    {
      match event {
        case Host(input) =>
          if input.Down? {
            Press(input);
          } else {
            Release(input);
          }
        case Ran(frame) => RunFrame(frame);
      }
    }
  }

  lemma {:induction false} WithoutNothing(pending: seq<Input>, id: Id)
    ensures (forall k :: 0 <= k < |pending| ==> pending[k].id != id) ==> Without(pending, id) == pending
  {
    if pending != [] {
      WithoutNothing(pending[..|pending| - 1], id);
    }
  }
}
