/** The blocking request/reply protocol between the emulation worker and the compute worker
    (gpu-compute-bridge.js), as a state machine. Every shared-memory access is its own step,
    so a run is any interleaving of both workers and of timeouts. */
module ComputeBridge {
  import opened Base

  const STATUS_OK: int := 1
  const STATUS_FAILED: int := 2
  const MIN_REPLY_BYTES: nat := 65536
  const MAX_REPLY_BYTES: nat := 0x4000_0000

  // ---------- Reply capacity ----------

  function ReplyCapacity(bytes: nat): nat { Doubled(MIN_REPLY_BYTES, bytes) }

  lemma {:induction false} DoubledFrom(i: nat, k: nat, bytes: nat)
    requires i <= k && bytes <= MIN_REPLY_BYTES * Pow2(k)
    requires k == 0 || MIN_REPLY_BYTES * Pow2(k - 1) < bytes
    ensures Doubled(MIN_REPLY_BYTES * Pow2(i), bytes) == MIN_REPLY_BYTES * Pow2(k)
    decreases k - i
  {
    if i < k {
      Pow2Grows(i, k - 1);
      DoubledFrom(i + 1, k, bytes);
    }
  }

  /** The capacity is the least doubling of 64 KiB that holds the reply, so it never passes the
      largest size the bridge accepts. */
  lemma ReplyCapacityIsLeast(k: nat, bytes: nat)
    requires bytes <= MIN_REPLY_BYTES * Pow2(k)
    requires k == 0 || MIN_REPLY_BYTES * Pow2(k - 1) < bytes
    ensures ReplyCapacity(bytes) == MIN_REPLY_BYTES * Pow2(k)
    ensures bytes <= MAX_REPLY_BYTES ==> ReplyCapacity(bytes) <= MAX_REPLY_BYTES
  {
    DoubledFrom(0, k, bytes);
    assert Pow2(14) == 16384;
    if k > 14 {
      Pow2Grows(14, k - 1);
    } else {
      Pow2Grows(k, 14);
    }
  }

  method ComputeReplyCapacity(bytes: nat) returns (capacity: nat)
    ensures capacity == ReplyCapacity(bytes) && capacity >= bytes
  {
    capacity := MIN_REPLY_BYTES;
    while capacity < bytes
      invariant capacity > 0 && Doubled(capacity, bytes) == ReplyCapacity(bytes)
      decreases bytes - capacity
    {
      capacity := capacity * 2;
    }
  }

  // ---------- Sequence numbers ----------

  predicate IsInt32(n: int) { -0x8000_0000 <= n < 0x8000_0000 }

  /** `(n + 1) | 0 || 1`: wraps at 32 bits and skips zero. */
  function NextSequence(n: int): (r: int)
    requires IsInt32(n)
    ensures IsInt32(r)
  {
    var wrapped := if n == 0x7FFF_FFFF then -0x8000_0000 else n + 1;
    if wrapped == 0 then 1 else wrapped
  }

  /** A new sequence never equals the one already published, even across the wrap. */
  lemma SequenceAdvances(n: int)
    requires IsInt32(n)
    ensures NextSequence(n) != n && NextSequence(n) != 0
  {
  }

  // ---------- State ----------

  /** `call` numbers requests for the statement only; the program sends `sequence`. */
  datatype Message = Message(sequence: int, request: Bytes, replacement: Option<nat>, call: nat)

  datatype Caller = Idle | Waiting | Matched | GotLength(length: int)

  datatype Worker =
    | Free
    | Running(m: Message)
    | Writing(m: Message, bytes: Bytes, written: nat)
    | Storing(m: Message, status: int, length: int, stored: nat)

  datatype State = State(
    sequence: int, reply: Option<nat>, ready: bool, failed: bool, caller: Caller, calls: nat, capacity: nat,
    inbox: seq<Message>,
    workerReply: Option<nat>, worker: Worker,
    controlSequence: int, controlLength: int, controlStatus: int,
    buffers: seq<Bytes>,
    requests: map<nat, Bytes>,
    executed: map<nat, (Bytes, Option<Bytes>)>,
    returned: map<nat, Bytes>)

  datatype Step =
    | BecomeReady
    | ExternalFailure
    | Call(request: Bytes, capacity: nat)
    | LoadSequence
    | Timeout
    | LoadLength
    | LoadStatus
    | Receive
    | Execute(result: Option<Bytes>)
    | WriteByte
    | StoreLength
    | StoreStatus
    | StoreSequence

  predicate Init(s: State) {
    s == State(0, None, false, false, Idle, 0, 0, [], None, Free, 0, 0, 0, [], map[], map[], map[])
  }

  predicate Enabled(s: State, step: Step) {
    match step
    case BecomeReady => s.caller.Idle? && !s.failed
    case ExternalFailure => s.caller.Idle?
    case Call(_, capacity) => s.caller.Idle? && !s.failed && s.ready && 1 <= capacity <= MAX_REPLY_BYTES
        && IsInt32(s.sequence)
                              && (s.reply.Some? ==> s.reply.value < |s.buffers|)
    case LoadSequence => s.caller.Waiting?
    case Timeout => s.caller.Waiting?
    case LoadLength => s.caller.Matched?
    case LoadStatus => s.caller.GotLength? && s.reply.Some? && s.reply.value < |s.buffers|
    case Receive => s.worker.Free? && s.inbox != []
    case Execute(_) => s.worker.Running?
    case WriteByte => s.worker.Writing? && s.workerReply.Some? && s.workerReply.value < |s.buffers|
                      && s.worker.written <= |s.worker.bytes| <= |s.buffers[s.workerReply.value]|
    case StoreLength => s.worker.Storing? && s.worker.stored == 0
    case StoreStatus => s.worker.Storing? && s.worker.stored == 1
    case StoreSequence => s.worker.Storing? && s.worker.stored == 2
  }

  function Fail(s: State): State { s.(failed := true, ready := false, caller := Idle) }

  function Zeros(n: nat): Bytes { seq(n, _ => 0) }

  /** Each side's step, in the program's order of effects. */
  function Apply(s: State, step: Step): State
    requires Enabled(s, step)
  {
    match step
    case BecomeReady => s.(ready := true)
    case ExternalFailure => Fail(s)
    case Call(request, capacity) =>
      var grow := s.reply.None? || |s.buffers[s.reply.value]| < capacity;
      var id := |s.buffers|;
      var sequence := NextSequence(s.sequence);
      var call := s.calls + 1;
      s.(buffers := if grow then s.buffers + [Zeros(ReplyCapacity(capacity))] else s.buffers,
         reply := if grow then Some(id) else s.reply,
         sequence := sequence, calls := call, capacity := capacity, caller := Waiting,
         requests := s.requests[call := request],
         inbox := s.inbox + [Message(sequence, request, if grow then Some(id) else None, call)])
    case LoadSequence => if s.controlSequence == s.sequence then s.(caller := Matched) else s
    case Timeout => Fail(s)
    case LoadLength => s.(caller := GotLength(s.controlLength))
    case LoadStatus =>
      var length, buffer := s.caller.length, s.buffers[s.reply.value];
      if s.controlStatus != STATUS_OK || length < 0 || length > |buffer| then Fail(s)
      else s.(caller := Idle, returned := s.returned[s.calls := buffer[..length]])
    case Receive =>
      var m := s.inbox[0];
      s.(inbox := s.inbox[1..], worker := Running(m),
         workerReply := if m.replacement.Some? then m.replacement else s.workerReply)
    case Execute(result) =>
      var m := s.worker.m;
      var fits := result.Some? && s.workerReply.Some? && s.workerReply.value < |s.buffers|
                  && |result.value| <= |s.buffers[s.workerReply.value]|;
      s.(executed := s.executed[m.call := (m.request, result)],
         worker := if fits then Writing(m, result.value, 0) else Storing(m, STATUS_FAILED, 0, 0))
    case WriteByte =>
      var w, id := s.worker, s.workerReply.value;
      if w.written == |w.bytes| then s.(worker := Storing(w.m, STATUS_OK, |w.bytes|, 0))
      else s.(buffers := s.buffers[id := s.buffers[id][w.written := w.bytes[w.written]]],
              worker := w.(written := w.written + 1))
    case StoreLength => s.(controlLength := s.worker.length, worker := s.worker.(stored := 1))
    case StoreStatus => s.(controlStatus := s.worker.status, worker := s.worker.(stored := 2))
    case StoreSequence => s.(controlSequence := s.worker.m.sequence, worker := Free)
  }

  // ---------- Invariant ----------

  predicate Buffered(s: State) {
    1 <= s.calls && s.reply.Some? && s.reply.value < |s.buffers| && s.capacity <= |s.buffers[s.reply.value]|
  }

  /** The one message a waiting caller has outstanding. */
  predicate Current(s: State, m: Message) {
    && m.call == s.calls && m.sequence == s.sequence
    && s.calls in s.requests && m.request == s.requests[s.calls]
    && (m.replacement.Some? ==> m.replacement == s.reply)
  }

  predicate Executed(s: State, result: Option<Bytes>) {
    && s.calls in s.executed && s.calls in s.requests
    && s.executed[s.calls] == (s.requests[s.calls], result)
  }

  /** The worker's refusal of the current call: nothing was computed, or it exceeds the buffer. */
  predicate Refused(s: State)
    requires Buffered(s)
  {
    && s.calls in s.executed
    && (s.executed[s.calls].1.None? || |s.executed[s.calls].1.value| > |s.buffers[s.reply.value]|)
  }

  predicate ReplyReady(s: State, status: int, length: int)
    requires Buffered(s)
  {
    if status == STATUS_OK
    then 0 <= length <= |s.buffers[s.reply.value]| && Executed(s, Some(s.buffers[s.reply.value][..length]))
    else Refused(s)
  }

  predicate Posted(s: State) {
    && |s.inbox| == 1 && s.worker.Free? && Current(s, s.inbox[0])
    && (s.inbox[0].replacement.None? ==> s.workerReply == s.reply)
    && s.controlSequence != s.sequence
  }

  predicate Busy(s: State)
    requires Buffered(s)
  {
    && s.inbox == [] && !s.worker.Free? && Current(s, s.worker.m)
    && s.workerReply == s.reply && s.controlSequence != s.sequence
    && match s.worker
       case Free => true
       case Running(_) => true
       case Writing(_, bytes, written) =>
         && Executed(s, Some(bytes))
         && written <= |bytes| <= |s.buffers[s.reply.value]|
         && s.buffers[s.reply.value][..written] == bytes[..written]
       case Storing(_, status, length, stored) =>
         && stored <= 2 && ReplyReady(s, status, length)
         && (stored >= 1 ==> s.controlLength == length)
         && (stored >= 2 ==> s.controlStatus == status)
  }

  predicate Published(s: State)
    requires Buffered(s)
  {
    && s.inbox == [] && s.worker.Free? && s.workerReply == s.reply && s.controlSequence == s.sequence
    && ReplyReady(s, s.controlStatus, s.controlLength)
  }

  /** No request is anywhere between the two workers. */
  predicate Quiet(s: State) {
    && s.inbox == [] && s.worker.Free? && s.workerReply == s.reply && s.controlSequence == s.sequence
    && (s.reply.Some? ==> s.reply.value < |s.buffers|)
  }

  /** After a failure a last request may still be in the worker; it belongs to no returned call. */
  predicate Abandoned(s: State) {
    && s.caller.Idle?
    && |s.inbox| <= 1
    && (s.inbox != [] ==> s.worker.Free? && s.inbox[0].call == s.calls && s.calls !in s.returned)
    && (!s.worker.Free? ==> s.worker.m.call == s.calls && s.calls !in s.returned)
  }

  predicate History(s: State) {
    && (forall n :: n in s.returned ==> 1 <= n <= s.calls && n in s.requests && n in s.executed
                                        && s.executed[n] == (s.requests[n], Some(s.returned[n])))
  }

  predicate Inv(s: State) {
    && IsInt32(s.sequence) && History(s)
    && if s.failed then Abandoned(s)
       else match s.caller
            case Idle => Quiet(s)
            case Waiting => Buffered(s) && s.calls !in s.returned && (Posted(s) || Busy(s) || Published(s))
            case Matched => Buffered(s) && s.calls !in s.returned && Published(s)
            case GotLength(length) => Buffered(s) && s.calls !in s.returned && Published(s) && length == s.controlLength
  }

  lemma InitEstablishesInv(s: State)
    requires Init(s)
    ensures Inv(s)
  {
  }

  lemma CallKeepsInv(s: State, request: Bytes, capacity: nat)
    requires Inv(s) && Enabled(s, Call(request, capacity))
    ensures Inv(Apply(s, Call(request, capacity)))
  {
    SequenceAdvances(s.sequence);
  }

  lemma CallerKeepsInv(s: State, step: Step)
    requires Inv(s) && Enabled(s, step)
    requires step.LoadSequence? || step.Timeout? || step.LoadLength? || step.LoadStatus? || step.ExternalFailure?
             || step.BecomeReady?
    ensures Inv(Apply(s, step))
  {
  }

  lemma ExecuteKeepsInv(s: State, step: Step)
    requires Inv(s) && Enabled(s, step) && (step.Receive? || step.Execute?)
    ensures Inv(Apply(s, step))
  {
  }

  lemma WriteKeepsInv(s: State)
    requires Inv(s) && Enabled(s, WriteByte)
    ensures Inv(Apply(s, WriteByte))
  {
    var w, id := s.worker, s.workerReply.value;
    if !s.failed {
      var buffer := s.buffers[id];
      if w.written == |w.bytes| {
        assert buffer[..w.written] == w.bytes[..w.written] == w.bytes;
      } else {
        var after := buffer[w.written := w.bytes[w.written]];
        assert after[..w.written + 1] == buffer[..w.written] + [w.bytes[w.written]];
        assert w.bytes[..w.written + 1] == w.bytes[..w.written] + [w.bytes[w.written]];
      }
    }
  }

  lemma StoreKeepsInv(s: State, step: Step)
    requires Inv(s) && Enabled(s, step) && (step.StoreLength? || step.StoreStatus? || step.StoreSequence?)
    ensures Inv(Apply(s, step))
  {
  }

  lemma StepKeepsInv(s: State, step: Step)
    requires Inv(s) && Enabled(s, step)
    ensures Inv(Apply(s, step))
  {
    match step {
      case Call(request, capacity) => CallKeepsInv(s, request, capacity);
      case LoadSequence => CallerKeepsInv(s, step);
      case Timeout => CallerKeepsInv(s, step);
      case LoadLength => CallerKeepsInv(s, step);
      case LoadStatus => CallerKeepsInv(s, step);
      case ExternalFailure => CallerKeepsInv(s, step);
      case BecomeReady => CallerKeepsInv(s, step);
      case Receive => ExecuteKeepsInv(s, step);
      case Execute(_) => ExecuteKeepsInv(s, step);
      case WriteByte => WriteKeepsInv(s);
      case _ => StoreKeepsInv(s, step);
    }
  }

  // ---------- Runs ----------

  ghost predicate IsRun(states: seq<State>, steps: seq<Step>) {
    && |states| == |steps| + 1 && Init(states[0])
    && forall i :: 0 <= i < |steps| ==> Enabled(states[i], steps[i]) && states[i + 1] == Apply(states[i], steps[i])
  }

  lemma {:induction false} RunKeepsInv(states: seq<State>, steps: seq<Step>, i: nat)
    requires IsRun(states, steps) && i < |states|
    ensures Inv(states[i])
  {
    if i == 0 {
      InitEstablishesInv(states[0]);
    } else {
      RunKeepsInv(states, steps, i - 1);
      StepKeepsInv(states[i - 1], steps[i - 1]);
    }
  }

  /** In every interleaving, a call that returns yields exactly the bytes the worker computed
      from that call's own request. */
  lemma ReturnsOwnReply(states: seq<State>, steps: seq<Step>, i: nat, call: nat)
    requires IsRun(states, steps) && i < |states| && call in states[i].returned
    ensures call in states[i].requests && call in states[i].executed
    ensures states[i].executed[call] == (states[i].requests[call], Some(states[i].returned[call]))
  {
    RunKeepsInv(states, steps, i);
  }

  /** Once the link has failed, whatever the worker still does is never returned to anyone. */
  lemma {:induction false} LateReplyNeverRead(states: seq<State>, steps: seq<Step>, i: nat, j: nat)
    requires IsRun(states, steps) && i <= j < |states| && states[i].failed
    ensures states[j].failed && states[j].caller.Idle? && states[j].returned == states[i].returned
    ensures states[j].calls == states[i].calls
  {
    if i == j {
      RunKeepsInv(states, steps, i);
    } else {
      LateReplyNeverRead(states, steps, i, j - 1);
      FailedStays(states[j - 1], steps[j - 1]);
    }
  }

  lemma FailedStays(s: State, step: Step)
    requires s.failed && s.caller.Idle? && Enabled(s, step)
    ensures var t := Apply(s, step);
            t.failed && t.caller.Idle? && t.returned == s.returned && t.calls == s.calls
  {
  }

  /** Publication order: when the caller sees its sequence, length and status are already those
      of its own reply, and stay so until it has read them. */
  lemma MatchedMeansPublished(states: seq<State>, steps: seq<Step>, i: nat)
    requires IsRun(states, steps) && i < |states|
    requires states[i].caller.Matched? || states[i].caller.GotLength?
    ensures Buffered(states[i]) && Published(states[i])
    ensures states[i].workerReply == states[i].reply
    ensures states[i].caller.GotLength? ==> states[i].caller.length == states[i].controlLength
  {
    RunKeepsInv(states, steps, i);
  }

  /** A reply within the reserved capacity is never refused: reading it out returns it. */
  lemma ReplyWithinCapacityReturns(states: seq<State>, steps: seq<Step>, i: nat)
    requires IsRun(states, steps) && i < |states| && states[i].caller.GotLength? && !states[i].failed
    ensures Enabled(states[i], LoadStatus) && states[i].calls in states[i].executed
    ensures var s := states[i];
            var (_, result) := s.executed[s.calls];
            result.Some? && |result.value| <= s.capacity ==>
              Apply(s, LoadStatus).returned == s.returned[s.calls := result.value]
  {
    RunKeepsInv(states, steps, i);
  }

  // ---------- A call returns ----------

  /** The state after some steps, if each of them is enabled in its turn. */
  function Outcome(s: State, steps: seq<Step>): Option<State>
    decreases |steps|
  {
    if steps == [] then Some(s)
    else if !Enabled(s, steps[0]) then None
    else Outcome(Apply(s, steps[0]), steps[1..])
  }

  lemma {:induction false} OutcomeConcat(s: State, a: seq<Step>, b: seq<Step>)
    ensures Outcome(s, a + b) == if Outcome(s, a).Some? then Outcome(Outcome(s, a).value, b) else None
    decreases |a|
  {
    if a == [] {
      assert a + b == b;
    } else {
      assert (a + b)[1..] == a[1..] + b;
      if Enabled(s, a[0]) {
        OutcomeConcat(Apply(s, a[0]), a[1..], b);
      }
    }
  }

  function Writes(n: nat): seq<Step> {
    if n == 0 then [] else [WriteByte] + Writes(n - 1)
  }

  /** Undisturbed: the worker takes the request, computes, copies byte by byte and publishes; then the
      caller looks. */
  function Served(request: Bytes, capacity: nat, result: Bytes): seq<Step> {
    [Call(request, capacity), Receive, Execute(Some(result))] + Writes(|result| + 1)
    + [StoreLength, StoreStatus, StoreSequence] + [LoadSequence, LoadLength, LoadStatus]
  }

  /** The call that followed `s` is under way, and the worker has computed its result. */
  ghost predicate Computed(s: State, w: State, request: Bytes, result: Option<Bytes>) {
    && Inv(w) && w.caller.Waiting? && !w.failed && w.ready && w.calls == s.calls + 1 && w.returned == s.returned
    && w.calls in w.executed && w.executed[w.calls] == (request, result)
  }

  lemma Asked(s: State, request: Bytes, capacity: nat)
    requires Inv(s) && s.caller.Idle? && s.ready && !s.failed && 1 <= capacity <= MAX_REPLY_BYTES
    ensures Enabled(s, Call(request, capacity))
    ensures var c := Apply(s, Call(request, capacity));
            && Inv(c) && Buffered(c) && c.caller.Waiting? && !c.failed && c.ready && c.capacity == capacity
            && c.calls == s.calls + 1 && c.returned == s.returned && c.calls in c.requests
               && c.requests[c.calls] == request
            && |c.inbox| == 1 && c.worker.Free?
  {
    CallKeepsInv(s, request, capacity);
  }

  lemma Taken(c: State)
    requires Inv(c) && c.caller.Waiting? && !c.failed && |c.inbox| == 1 && c.worker.Free?
    ensures Enabled(c, Receive)
    ensures var r := Apply(c, Receive);
            && Inv(r) && Buffered(r) && r.worker.Running? && r.workerReply == r.reply
               && r.worker.m.request == c.requests[c.calls]
            && r.worker.m.call == r.calls
            && r == c.(inbox := r.inbox, worker := r.worker, workerReply := r.workerReply)
  {
    ExecuteKeepsInv(c, Receive);
  }

  lemma AskedAndComputed(s: State, request: Bytes, capacity: nat, result: Option<Bytes>) returns (w: State)
    requires Inv(s) && s.caller.Idle? && s.ready && !s.failed && 1 <= capacity <= MAX_REPLY_BYTES
    requires result.Some? ==> |result.value| <= capacity
    ensures Outcome(s, [Call(request, capacity), Receive, Execute(result)]) == Some(w)
            && Computed(s, w, request, result)
    ensures if result.Some? then w.worker.Writing? && w.worker.bytes == result.value && w.worker.written == 0
            else w.worker.Storing? && w.worker.status == STATUS_FAILED && w.worker.stored == 0
  {
    Asked(s, request, capacity);
    var c := Apply(s, Call(request, capacity));
    Taken(c);
    var r := Apply(c, Receive);
    ExecuteKeepsInv(r, Execute(result));
    w := Apply(r, Execute(result));
    assert Outcome(r, [Execute(result)]) == Outcome(w, []) by { assert [Execute(result)][1..] == []; }
    assert Outcome(c, [Receive, Execute(result)]) == Some(w) by {
      assert [Receive, Execute(result)][1..] == [Execute(result)];
    }
    assert [Call(request, capacity), Receive, Execute(result)][1..] == [Receive, Execute(result)];
  }

  lemma CopiedOne(s: State, w: State, request: Bytes, result: Bytes)
    requires Computed(s, w, request, Some(result)) && w.worker.Writing? && w.worker.bytes == result
    ensures w.worker.written <= |result| && Enabled(w, WriteByte)
    ensures var v := Apply(w, WriteByte);
            && Computed(s, v, request, Some(result))
            && if w.worker.written == |result|
               then v.worker.Storing? && v.worker.status == STATUS_OK && v.worker.stored == 0
               else v.worker.Writing? && v.worker.bytes == result && v.worker.written == w.worker.written + 1
  {
    CanWrite(w);
    WriteKeepsInv(w);
  }

  lemma {:induction false} Copied(s: State, w: State, request: Bytes, result: Bytes) returns (v: State)
    requires Computed(s, w, request, Some(result)) && w.worker.Writing? && w.worker.bytes == result
    requires w.worker.written <= |result|
    ensures Outcome(w, Writes(|result| - w.worker.written + 1)) == Some(v) && Computed(s, v, request, Some(result))
    ensures v.worker.Storing? && v.worker.status == STATUS_OK && v.worker.stored == 0
    decreases |result| - w.worker.written
  {
    CopiedOne(s, w, request, result);
    var n := |result| - w.worker.written;
    assert Writes(n + 1)[1..] == Writes(n);
    if n == 0 {
      v := Apply(w, WriteByte);
    } else {
      v := Copied(s, Apply(w, WriteByte), request, result);
    }
  }

  lemma CanWrite(w: State)
    requires Inv(w) && !w.failed && w.caller.Waiting? && w.worker.Writing?
    ensures Enabled(w, WriteByte)
  {
  }

  lemma Stored(s: State, v: State, request: Bytes, result: Option<Bytes>) returns (p: State)
    requires Computed(s, v, request, result) && v.worker.Storing? && v.worker.stored == 0
    ensures Outcome(v, [StoreLength, StoreStatus, StoreSequence]) == Some(p) && Computed(s, p, request, result)
    ensures Buffered(p) && Published(p) && p.controlStatus == v.worker.status
  {
    StoreKeepsInv(v, StoreLength);
    var a := Apply(v, StoreLength);
    StoreKeepsInv(a, StoreStatus);
    var b := Apply(a, StoreStatus);
    StoreKeepsInv(b, StoreSequence);
    p := Apply(b, StoreSequence);
    assert [StoreLength, StoreStatus, StoreSequence][1..] == [StoreStatus, StoreSequence];
    assert [StoreStatus, StoreSequence][1..] == [StoreSequence] && [StoreSequence][1..] == [];
    assert Outcome(b, [StoreSequence]) == Some(p);
    assert Outcome(a, [StoreStatus, StoreSequence]) == Some(p);
  }

  /** Looking at a published reply: returned if it is one, a failure of the link if not. */
  lemma Read(s: State, p: State, request: Bytes, result: Option<Bytes>) returns (t: State)
    requires Computed(s, p, request, result) && Buffered(p) && Published(p)
    requires p.controlStatus == STATUS_OK <==> result.Some?
    ensures Outcome(p, [LoadSequence, LoadLength, LoadStatus]) == Some(t) && t.caller.Idle? && t.calls == s.calls + 1
    ensures if result.Some? then !t.failed && t.ready && t.returned == s.returned[t.calls := result.value]
            else t.failed && t.returned == s.returned
  {
    var a := Apply(p, LoadSequence);
    var b := Apply(a, LoadLength);
    t := Apply(b, LoadStatus);
    assert [LoadSequence, LoadLength, LoadStatus][1..] == [LoadLength, LoadStatus];
    assert [LoadLength, LoadStatus][1..] == [LoadStatus] && [LoadStatus][1..] == [];
    assert Outcome(b, [LoadStatus]) == Some(t);
    assert Outcome(a, [LoadLength, LoadStatus]) == Some(t);
  }

  /** From every state a run reaches in which the link is up and idle, every request whose result fits
      the capacity asked for comes back with that result, if nobody interferes; and the link is up and
      idle again. */
  lemma CallReturns(states: seq<State>, steps: seq<Step>, i: nat, request: Bytes, capacity: nat, result: Bytes)
    requires IsRun(states, steps) && i < |states|
    requires states[i].caller.Idle? && states[i].ready && !states[i].failed
    requires 1 <= capacity <= MAX_REPLY_BYTES && |result| <= capacity
    ensures var s, t := states[i], Outcome(states[i], Served(request, capacity, result));
            && t.Some? && t.value.caller.Idle? && t.value.ready && !t.value.failed && t.value.calls == s.calls + 1
            && t.value.returned == s.returned[s.calls + 1 := result]
  {
    RunKeepsInv(states, steps, i);
    var s := states[i];
    var w := AskedAndComputed(s, request, capacity, Some(result));
    var v := Copied(s, w, request, result);
    var p := Stored(s, v, request, Some(result));
    var t := Read(s, p, request, Some(result));
    Joined(s, [Call(request, capacity), Receive, Execute(Some(result))], w, Writes(|result| + 1), v,
           [StoreLength, StoreStatus, StoreSequence], p, [LoadSequence, LoadLength, LoadStatus], t);
  }

  lemma Joined(s: State, a: seq<Step>, w: State, b: seq<Step>, v: State, c: seq<Step>, p: State, d: seq<Step>, t: State)
    requires Outcome(s, a) == Some(w) && Outcome(w, b) == Some(v) && Outcome(v, c) == Some(p)
             && Outcome(p, d) == Some(t)
    ensures Outcome(s, a + b + c + d) == Some(t)
  {
    OutcomeConcat(s, a, b);
    OutcomeConcat(s, a + b, c);
    OutcomeConcat(s, a + b + c, d);
  }

  /** A request the worker cannot serve comes back too: as a failure of the link. */
  lemma CallFails(states: seq<State>, steps: seq<Step>, i: nat, request: Bytes, capacity: nat)
    requires IsRun(states, steps) && i < |states|
    requires states[i].caller.Idle? && states[i].ready && !states[i].failed && 1 <= capacity <= MAX_REPLY_BYTES
    ensures var s := states[i];
            var t := Outcome(s, [Call(request, capacity), Receive, Execute(None)]
                                + [StoreLength, StoreStatus, StoreSequence] + [LoadSequence, LoadLength, LoadStatus]);
            t.Some? && t.value.caller.Idle? && t.value.failed && t.value.returned == s.returned
  {
    RunKeepsInv(states, steps, i);
    var s := states[i];
    var w := AskedAndComputed(s, request, capacity, None);
    var p := Stored(s, w, request, None);
    var t := Read(s, p, request, None);
    var asking, storing := [Call(request, capacity), Receive, Execute(None)], [StoreLength, StoreStatus, StoreSequence];
    OutcomeConcat(s, asking, storing);
    OutcomeConcat(s, asking + storing, [LoadSequence, LoadLength, LoadStatus]);
  }
}
