/** One frame in flight and one newest pending frame (renderer-transport.js). Callbacks run
    at the point where the program calls them and may re-enter the transport. */
module RendererTransports {
  import opened Base

  /** A transferable buffer: its identity and its size. */
  datatype Buffer = Buffer(id: nat, bytes: nat)

  /** `wellFormed` stands for the checks on kind, completeness and view types. */
  datatype Packet = Packet(sequence: int, wellFormed: bool, buffers: seq<Buffer>)

  /** What `postMessage` does: it may throw, with the frame's memory still owned or already gone. */
  datatype Post = Posted | ThrewOwned | ThrewDetached

  datatype Message = Message(ours: bool, protocol: nat, kind: MessageKind, sequence: int, buffers: seq<Buffer>)
  datatype MessageKind = Error | Submitted | Dropped | Other

  /** What happens from outside. `inside` is what a callback does if this event leads to one. */
  datatype Event =
    | Submit(packet: Packet, post: Post, inside: seq<Event>)
    | Receive(message: Message, post: Post, inside: seq<Event>)
    | TakeBuffer(bytes: nat)
    | Dispose

  /** A frame handed to the transport, and the answer its sender got. */
  datatype Offer = Offer(packet: Packet, ok: bool)

  // ---------- The recycled buffers ----------

  /** At most two buffers, nonempty and distinct. */
  ghost predicate Pooled(pool: seq<Buffer>) {
    && |pool| <= 2
    && (forall b :: b in pool ==> b.bytes > 0)
    && (forall j, k :: 0 <= j < k < |pool| ==> pool[j] != pool[k])
  }

  function Recycled(pool: seq<Buffer>, buffers: seq<Buffer>): seq<Buffer> {
    if buffers == [] then pool
    else
      var before, b := Recycled(pool, buffers[..|buffers| - 1]), buffers[|buffers| - 1];
      if b.bytes > 0 && |before| < 2 && b !in before then before + [b] else before
  }

  /** What was kept stays; a returned buffer that holds memory is kept unless two already are. */
  lemma {:induction false} RecycledExactly(pool: seq<Buffer>, buffers: seq<Buffer>)
    requires Pooled(pool)
    ensures var kept := Recycled(pool, buffers);
            && Pooled(kept) && pool <= kept
            && (forall b :: b in buffers && b.bytes > 0 ==> b in kept || |kept| == 2)
            && (forall b :: b in kept ==> b in pool || b in buffers)
  {
    if buffers != [] {
      var front, last := buffers[..|buffers| - 1], buffers[|buffers| - 1];
      RecycledExactly(pool, front);
      assert buffers == front + [last];
    }
  }

  /** The first recycled buffer of exactly the requested size leaves the pool. */
  function TakenFrom(pool: seq<Buffer>, bytes: nat): (Option<Buffer>, seq<Buffer>) {
    if pool == [] then (None, pool)
    else if pool[0].bytes == bytes then (Some(pool[0]), pool[1..])
    else
      var (taken, rest) := TakenFrom(pool[1..], bytes);
      (taken, [pool[0]] + rest)
  }

  lemma {:induction false} TakenExactly(pool: seq<Buffer>, bytes: nat)
    requires Pooled(pool)
    ensures var (taken, rest) := TakenFrom(pool, bytes);
            && Pooled(rest) && (forall b :: b in rest ==> b in pool)
            && (taken.None? ==> rest == pool && forall b :: b in pool ==> b.bytes != bytes)
            && (taken.Some? ==>
                  && taken.value.bytes == bytes && taken.value in pool && taken.value !in rest
                  && |rest| == |pool| - 1)
  {
    if pool != [] {
      assert pool == [pool[0]] + pool[1..];
      TakenExactly(pool[1..], bytes);
    }
  }

  lemma {:induction false} TakenSplit(pool: seq<Buffer>, bytes: nat, k: nat)
    requires k <= |pool| && forall j :: 0 <= j < k ==> pool[j].bytes != bytes
    ensures TakenFrom(pool, bytes) == (TakenFrom(pool[k..], bytes).0, pool[..k] + TakenFrom(pool[k..], bytes).1)
  {
    if k == 0 {
      assert pool[0..] == pool && pool[..0] + TakenFrom(pool, bytes).1 == TakenFrom(pool, bytes).1;
    } else {
      TakenSplit(pool[1..], bytes, k - 1);
      assert pool[1..][k - 1..] == pool[k..];
      var rest := TakenFrom(pool[k..], bytes).1;
      assert [pool[0]] + (pool[1..][..k - 1] + rest) == pool[..k] + rest;
    }
  }

  // ---------- What one call does ----------

  /** The transport's fields, and with them everything accepted and posted, the sequences the answers
      named, and how it was closed. */
  datatype Snapshot = Snapshot(
    inFlight: Option<int>, pending: Option<Packet>, recycled: seq<Buffer>, sequence: int, closed: bool,
    accepted: seq<Packet>, sent: seq<Packet>, answers: seq<int>,
    // What a failure handed back (None: no failure; Some(None): nothing was left to hand back).
    recovery: Option<Option<Packet>>,
    // Closed by its owner, not by a failure.
    disposed: bool,
    // An accepted frame whose own posting threw at once, so its sender was told no.
    thrown: Option<Packet>,
    // The frame that could not be posted was gone: its memory had been transferred.
    lost: bool)

  const NEW_TRANSPORT := Snapshot(None, None, [], 0, false, [], [], [], None, false, None, false)

  function Emptied(s: Snapshot): Snapshot {
    s.(inFlight := None, pending := None, recycled := [], closed := true)
  }

  /** Closes and hands the pending frame to the owner. */
  function Failed(s: Snapshot): Snapshot {
    if s.closed then s else Emptied(s).(recovery := Some(s.pending))
  }

  function Disposed(s: Snapshot): Snapshot {
    if s.closed then s else Emptied(s).(disposed := true)
  }

  function Posting(s: Snapshot, packet: Packet, post: Post): Snapshot {
    match post
    case Posted => s.(inFlight := Some(packet.sequence), sent := s.sent + [packet])
    case ThrewOwned => Failed(s.(pending := Some(packet)))
    case ThrewDetached => Failed(s.(lost := true))
  }

  predicate Acceptable(s: Snapshot, packet: Packet) {
    packet.wellFormed && packet.sequence > s.sequence
  }

  function Accept(s: Snapshot, packet: Packet): Snapshot {
    s.(sequence := packet.sequence, accepted := s.accepted + [packet])
  }

  /** The newer frame takes the pending frame's place, whose buffers are recycled. */
  function Replaced(s: Snapshot, packet: Packet): Snapshot {
    s.(recycled := Recycled(s.recycled, if s.pending.Some? then s.pending.value.buffers else []),
       pending := Some(packet))
  }

  /** The frame is posted at once; if that throws, its sender is told no. */
  function Launched(s: Snapshot, packet: Packet, post: Post): Snapshot {
    var posted := Posting(s, packet, post);
    if post.Posted? then posted else posted.(thrown := Some(packet))
  }

  function Entered(s: Snapshot, packet: Packet, post: Post): Snapshot {
    if s.inFlight.Some? then Replaced(Accept(s, packet), packet) else Launched(Accept(s, packet), packet, post)
  }

  function SubmittedTo(s: Snapshot, packet: Packet, post: Post): Snapshot {
    if s.closed then s
    else if !Acceptable(s, packet) then Failed(s)
    else Entered(s, packet, post)
  }

  /** True exactly when the frame was accepted and, if nothing was in flight, posted. */
  predicate Accepts(s: Snapshot, packet: Packet, post: Post) {
    !s.closed && Acceptable(s, packet) && (s.inFlight.Some? || post.Posted?)
  }

  /** Whatever a failure's callback submits is refused. */
  function Refusals(events: seq<Event>): seq<Offer> {
    if events == [] then []
    else
      var last := events[|events| - 1];
      Refusals(events[..|events| - 1]) + if last.Submit? then [Offer(last.packet, false)] else []
  }

  /** The offers made while the failure between two states is reported. */
  function Reported(before: Snapshot, after: Snapshot, inside: seq<Event>): seq<Offer> {
    if before.closed == after.closed then [] else Refusals(inside)
  }

  /** The answered frame's credit is free, its buffers are back, and nothing is pending. */
  function Freed(s: Snapshot, message: Message): Snapshot {
    s.(inFlight := None, answers := s.answers + [message.sequence], recycled := Recycled(s.recycled, message.buffers),
       pending := None)
  }

  /** The pending frame takes the freed credit. */
  function Settled(s: Snapshot, message: Message, post: Post): Snapshot {
    if s.pending.None? then Freed(s, message) else Posting(Freed(s, message), s.pending.value, post)
  }

  predicate Answers(s: Snapshot, message: Message) {
    s.inFlight == Some(message.sequence) && (message.kind.Submitted? || message.kind.Dropped?)
  }

  /** The pending frame is sent before the owner hears of the answer, so what the owner does in its
      callback finds the credit taken. */
  function Concluded(s: Snapshot, message: Message, post: Post, inside: seq<Event>): (Snapshot, seq<Offer>)
    decreases inside, 1
  {
    var settled := Settled(s, message, post);
    if settled.closed then (settled, Refusals(inside))
    else if message.kind.Submitted? then Driven(settled, inside)
    else (settled, [])
  }

  /** Foreign and stale replies are ignored. */
  function Received(s: Snapshot, message: Message, post: Post, inside: seq<Event>): (Snapshot, seq<Offer>)
    decreases inside, 2
  {
    if s.closed || !message.ours then (s, [])
    else if message.protocol != 5 || message.kind.Error? then (Failed(s), Refusals(inside))
    else if !Answers(s, message) then (s, [])
    else Concluded(s, message, post, inside)
  }

  function Handled(s: Snapshot, event: Event): (Snapshot, seq<Offer>)
    decreases event
  {
    match event
    case Submit(packet, post, inside) =>
      var after := SubmittedTo(s, packet, post);
      (after, [Offer(packet, Accepts(s, packet, post))] + Reported(s, after, inside))
    case Receive(message, post, inside) => Received(s, message, post, inside)
    case TakeBuffer(bytes) => (s.(recycled := TakenFrom(s.recycled, bytes).1), [])
    case Dispose => (Disposed(s), [])
  }

  /** Any run of events, including everything callbacks do from inside. */
  function Driven(s: Snapshot, events: seq<Event>): (Snapshot, seq<Offer>)
    decreases events, 0
  {
    if events == [] then (s, [])
    else
      var (before, offers) := Driven(s, events[..|events| - 1]);
      var (after, more) := Handled(before, events[|events| - 1]);
      (after, offers + more)
  }

  // ---------- What every state keeps ----------

  ghost predicate Increasing(packets: seq<Packet>) {
    forall j, k :: 0 <= j < k < |packets| ==> packets[j].sequence < packets[k].sequence
  }

  function Newest(packets: seq<Packet>): Option<Packet> {
    if packets == [] then None else Some(packets[|packets| - 1])
  }

  /** Accepted frames and, among them, the frames posted, both in strictly increasing order. */
  ghost predicate Ordered(accepted: seq<Packet>, sent: seq<Packet>, sequence: int) {
    && 0 <= sequence
    && Increasing(accepted) && Increasing(sent)
    && (forall k :: 0 <= k < |accepted| ==> 0 < accepted[k].sequence <= sequence)
    && (forall k :: 0 <= k < |sent| ==> sent[k] in accepted)
    && (accepted != [] ==> accepted[|accepted| - 1].sequence == sequence)
  }

  ghost predicate Histories(s: Snapshot) {
    Ordered(s.accepted, s.sent, s.sequence) && Pooled(s.recycled) && Answered(s.sent, s.answers)
  }

  /** The posted frames are answered one by one, each by an answer that names it; at most the last one
      has no answer yet. */
  ghost predicate Answered(sent: seq<Packet>, answers: seq<int>) {
    && |answers| <= |sent| <= |answers| + 1
    && forall k :: 0 <= k < |answers| ==> answers[k] == sent[k].sequence
  }

  /** While open: a frame is pending only behind one in flight and is the newest accepted;
      otherwise the newest accepted frame is the last one sent. */
  ghost predicate Open(s: Snapshot) {
    && s.recovery.None? && !s.disposed && s.thrown.None? && !s.lost
    && |s.sent| == |s.answers| + (if s.inFlight.Some? then 1 else 0)
    && (s.inFlight.Some? ==> Newest(s.sent).Some? && Newest(s.sent).value.sequence == s.inFlight.value)
    && (s.pending.Some? ==>
          && s.inFlight.Some? && s.pending == Newest(s.accepted)
          && s.pending.value.sequence > s.inFlight.value)
    && (s.pending.None? ==> Newest(s.sent) == Newest(s.accepted))
  }

  /** The frame a failure hands back: the newest accepted, if it was not sent and still exists. */
  ghost function Unsent(s: Snapshot): Option<Packet> {
    if Newest(s.sent) == Newest(s.accepted) || s.lost then None else Newest(s.accepted)
  }

  /** Closed: nothing is held, and unless the owner closed it, the newest unsent frame was handed back. */
  ghost predicate Shut(s: Snapshot) {
    && s.inFlight.None? && s.pending.None? && s.recycled == []
    && s.recovery == (if s.disposed then None else Some(Unsent(s)))
    && (s.thrown.Some? ==> s.thrown == Newest(s.accepted) != Newest(s.sent))
  }

  ghost predicate Valid(s: Snapshot) {
    Histories(s) && if s.closed then Shut(s) else Open(s)
  }

  lemma Accepting(accepted: seq<Packet>, sent: seq<Packet>, sequence: int, packet: Packet)
    requires Ordered(accepted, sent, sequence) && packet.sequence > sequence
    ensures Ordered(accepted + [packet], sent, packet.sequence)
    ensures Newest(accepted + [packet]) == Some(packet) != Newest(sent)
    ensures Newest(sent).Some? ==> Newest(sent).value.sequence < packet.sequence
  {
    if sent != [] {
      assert sent[|sent| - 1] in accepted;
    }
  }

  lemma Sending(accepted: seq<Packet>, sent: seq<Packet>, sequence: int, packet: Packet)
    requires Ordered(accepted, sent, sequence) && Newest(accepted) == Some(packet)
    requires Newest(sent).Some? ==> Newest(sent).value.sequence < packet.sequence
    ensures Ordered(accepted, sent + [packet], sequence)
    ensures Newest(sent + [packet]) == Newest(accepted) != Newest(sent)
  {
  }

  /** The credit is free and the newest accepted frame is about to be posted. */
  ghost predicate Ready(s: Snapshot, packet: Packet) {
    && Histories(s) && !s.closed && s.recovery.None? && !s.disposed && s.thrown.None? && !s.lost
    && s.inFlight.None? && s.pending.None?
    && Newest(s.accepted) == Some(packet) && |s.sent| == |s.answers|
    && (Newest(s.sent).Some? ==> Newest(s.sent).value.sequence < packet.sequence)
  }

  lemma PostingIsValid(s: Snapshot, packet: Packet, post: Post)
    requires Ready(s, packet)
    ensures Valid(Posting(s, packet, post)) && (Posting(s, packet, post).closed <==> !post.Posted?)
    ensures Newest(s.sent) != Some(packet)
  {
    Sending(s.accepted, s.sent, s.sequence, packet);
  }

  lemma FailedIsValid(s: Snapshot)
    requires Valid(s)
    ensures Valid(Failed(s))
  {
  }

  lemma ReplacedIsValid(s: Snapshot, packet: Packet)
    requires Valid(s) && !s.closed && s.inFlight.Some? && Acceptable(s, packet)
    ensures Valid(Replaced(Accept(s, packet), packet))
  {
    Accepting(s.accepted, s.sent, s.sequence, packet);
    RecycledExactly(s.recycled, if s.pending.Some? then s.pending.value.buffers else []);
  }

  /** What entering an acceptable frame relies on. */
  lemma EnteringIsValid(s: Snapshot, packet: Packet, post: Post)
    requires Valid(s) && !s.closed && Acceptable(s, packet)
    ensures Valid(Entered(s, packet, post))
    ensures Entered(s, packet, post).closed <==> s.inFlight.None? && !post.Posted?
    ensures s.inFlight.None? ==> Valid(Posting(Accept(s, packet), packet, post))
  {
    if s.inFlight.Some? {
      ReplacedIsValid(s, packet);
    } else {
      Accepting(s.accepted, s.sent, s.sequence, packet);
      PostingIsValid(Accept(s, packet), packet, post);
    }
  }

  lemma SubmittedIsValid(s: Snapshot, packet: Packet, post: Post)
    requires Valid(s)
    ensures Valid(SubmittedTo(s, packet, post))
  {
    if !s.closed && !Acceptable(s, packet) {
      FailedIsValid(s);
    } else if !s.closed {
      EnteringIsValid(s, packet, post);
    }
  }

  /** An open transport's answer says what became of the frame: posted at once, put in the place of
      the pending one, or refused. A refusal always closes it: a frame out of order hands back the
      pending frame, and a frame whose posting threw is itself handed back, if it still exists. */
  lemma SubmissionOutcome(s: Snapshot, packet: Packet, post: Post)
    requires Valid(s) && !s.closed
    ensures var t, ok := SubmittedTo(s, packet, post), Accepts(s, packet, post);
            && t.closed == !ok
            && (ok ==> t.accepted == s.accepted + [packet])
            && (ok && s.inFlight.None? ==>
                  && t.sent == s.sent + [packet] && t.pending.None?
                  && t.inFlight == Some(packet.sequence))
            && (ok && s.inFlight.Some? ==> t.sent == s.sent && t.pending == Some(packet) && t.inFlight == s.inFlight)
            && (!ok ==> t.sent == s.sent && t.recovery == Some(
                  if !packet.wellFormed || packet.sequence <= s.sequence then s.pending
                  else if post.ThrewOwned? then Some(packet) else None))
  {
  }

  lemma SettledIsValid(s: Snapshot, message: Message, post: Post)
    requires Valid(s) && !s.closed && s.inFlight == Some(message.sequence)
    ensures Valid(Settled(s, message, post))
    ensures Settled(s, message, post).closed <==> s.pending.Some? && !post.Posted?
  {
    RecycledExactly(s.recycled, message.buffers);
    if s.pending.Some? {
      PostingIsValid(Freed(s, message), s.pending.value, post);
    }
  }

  /** A reply that does not name the frame in flight changes nothing and makes no offer. */
  lemma StaleChangesNothing(s: Snapshot, message: Message, post: Post, inside: seq<Event>)
    requires message.ours && message.protocol == 5 && !message.kind.Error? && s.inFlight != Some(message.sequence)
    ensures Received(s, message, post, inside) == (s, [])
  {
  }

  /** A reply that names it is the answer to the frame posted last: it frees the credit, and the pending
      frame takes it. */
  lemma AnswerFreesCredit(s: Snapshot, message: Message, post: Post)
    requires Valid(s) && !s.closed && message.ours && message.protocol == 5
    requires (message.kind.Submitted? || message.kind.Dropped?) && s.inFlight == Some(message.sequence)
    ensures var t := Received(s, message, post, []).0;
            && s.sent != [] && t.answers == s.answers + [s.sent[|s.sent| - 1].sequence]
            && t.sent == s.sent + (if s.pending.Some? && post.Posted? then [s.pending.value] else [])
            && t.pending.None? && (t.closed <==> s.pending.Some? && !post.Posted?)
            && t.inFlight == (if s.pending.Some? && post.Posted? then Some(s.pending.value.sequence) else None)
  {
    SettledIsValid(s, message, post);
  }

  lemma {:induction false} ReceivedIsValid(s: Snapshot, message: Message, post: Post, inside: seq<Event>)
    requires Valid(s)
    ensures Valid(Received(s, message, post, inside).0)
    decreases inside, 1
  {
    if !s.closed && message.ours {
      if message.protocol != 5 || message.kind.Error? {
        FailedIsValid(s);
      } else if Answers(s, message) {
        SettledIsValid(s, message, post);
        DrivenIsValid(Settled(s, message, post), inside);
      }
    }
  }

  lemma {:induction false} HandledIsValid(s: Snapshot, event: Event)
    requires Valid(s)
    ensures Valid(Handled(s, event).0)
    decreases event
  {
    match event {
      case Submit(packet, post, inside) => SubmittedIsValid(s, packet, post);
      case Receive(message, post, inside) => ReceivedIsValid(s, message, post, inside);
      case TakeBuffer(bytes) => TakenExactly(s.recycled, bytes);
      case Dispose =>
    }
  }

  /** Every state of every run, callbacks included. */
  lemma {:induction false} DrivenIsValid(s: Snapshot, events: seq<Event>)
    requires Valid(s)
    ensures Valid(Driven(s, events).0)
    decreases events, 0
  {
    if events != [] {
      DrivenIsValid(s, events[..|events| - 1]);
      HandledIsValid(Driven(s, events[..|events| - 1]).0, events[|events| - 1]);
    }
  }

  // ---------- What became of the offers ----------

  lemma ClosedHandles(s: Snapshot, event: Event)
    requires s.closed && s.recycled == []
    ensures Handled(s, event) == (s, if event.Submit? then [Offer(event.packet, false)] else [])
  {
    match event {
      case Submit(packet, post, inside) => assert [Offer(packet, false)] + [] == [Offer(packet, false)];
      case Receive(message, post, inside) => assert Received(s, message, post, inside) == (s, []);
      case TakeBuffer(bytes) => assert s.(recycled := []) == s;
      case Dispose =>
    }
  }

  /** Once closed, nothing changes and everything is refused. */
  lemma {:induction false} ClosedRefuses(s: Snapshot, events: seq<Event>)
    requires s.closed && s.recycled == []
    ensures Driven(s, events) == (s, Refusals(events))
  {
    if events != [] {
      ClosedRefuses(s, events[..|events| - 1]);
      ClosedHandles(s, events[|events| - 1]);
    }
  }

  /** The frames whose senders were told they were accepted. */
  function Taken(offers: seq<Offer>): seq<Packet> {
    if offers == [] then []
    else
      var last := offers[|offers| - 1];
      Taken(offers[..|offers| - 1]) + if last.ok then [last.packet] else []
  }

  lemma {:induction false} TakenConcat(a: seq<Offer>, b: seq<Offer>)
    ensures Taken(a + b) == Taken(a) + Taken(b)
  {
    if b == [] {
      assert a + b == a;
    } else {
      var n := |b| - 1;
      assert (a + b)[..|a| + n] == a + b[..n];
      TakenConcat(a, b[..n]);
    }
  }

  lemma {:induction false} RefusalsTakeNothing(events: seq<Event>)
    ensures Taken(Refusals(events)) == []
  {
    if events != [] {
      var front, last := events[..|events| - 1], events[|events| - 1];
      RefusalsTakeNothing(front);
      TakenConcat(Refusals(front), if last.Submit? then [Offer(last.packet, false)] else []);
    }
  }

  function Listed(thrown: Option<Packet>): seq<Packet> {
    if thrown.None? then [] else [thrown.value]
  }

  /** From an open state: the accepted frames are those of the offers answered yes, in order, followed
      by the one whose own posting threw, if any; and frames once posted stay posted. */
  ghost predicate Accounts(before: Snapshot, after: Snapshot, offers: seq<Offer>) {
    after.accepted == before.accepted + Taken(offers) + Listed(after.thrown) && before.sent <= after.sent
  }

  lemma AccountsStep(s: Snapshot, t: Snapshot, u: Snapshot, offers: seq<Offer>, more: seq<Offer>)
    requires Accounts(s, t, offers) && !t.closed && t.thrown.None? && Accounts(t, u, more)
    ensures Accounts(s, u, offers + more)
  {
    TakenConcat(offers, more);
  }

  lemma OneOffer(offer: Offer, inside: seq<Event>)
    ensures Taken([offer]) == (if offer.ok then [offer.packet] else [])
    ensures Taken([offer] + Refusals(inside)) == Taken([offer])
    ensures Taken([offer] + []) == Taken([offer])
  {
    assert [offer][..0] == [];
    assert Taken([offer]) == Taken([offer][..0]) + if offer.ok then [offer.packet] else [];
    RefusalsTakeNothing(inside);
    TakenConcat([offer], Refusals(inside));
    TakenConcat([offer], []);
  }

  /** What a submission adds to the accepted frames. */
  lemma SubmissionAdds(s: Snapshot, packet: Packet, post: Post)
    requires Valid(s) && !s.closed
    ensures var t := SubmittedTo(s, packet, post);
            && t.accepted == s.accepted + (if Accepts(s, packet, post) then [packet] else []) + Listed(t.thrown)
            && s.sent <= t.sent
  {
  }

  lemma SubmittedAccounts(s: Snapshot, packet: Packet, post: Post, inside: seq<Event>)
    requires Valid(s) && !s.closed
    ensures var t := SubmittedTo(s, packet, post);
            Accounts(s, t, [Offer(packet, Accepts(s, packet, post))] + Reported(s, t, inside))
  {
    OneOffer(Offer(packet, Accepts(s, packet, post)), inside);
    SubmissionAdds(s, packet, post);
  }

  lemma SettledAccounts(s: Snapshot, message: Message, post: Post)
    requires Valid(s) && !s.closed && s.inFlight.Some?
    ensures Accounts(s, Settled(s, message, post), [])
  {
  }

  lemma {:induction false} ReceivedAccounts(s: Snapshot, message: Message, post: Post, inside: seq<Event>)
    requires Valid(s) && !s.closed
    ensures var (t, offers) := Received(s, message, post, inside); Accounts(s, t, offers)
    decreases inside, 1
  {
    RefusalsTakeNothing(inside);
    if message.ours && message.protocol == 5 && !message.kind.Error? && Answers(s, message) {
      var settled := Settled(s, message, post);
      SettledIsValid(s, message, post);
      SettledAccounts(s, message, post);
      if !settled.closed && message.kind.Submitted? {
        DrivenAccounts(settled, inside);
        AccountsStep(s, settled, Driven(settled, inside).0, [], Driven(settled, inside).1);
        assert [] + Driven(settled, inside).1 == Driven(settled, inside).1;
      }
    }
  }

  lemma {:induction false} HandledAccounts(s: Snapshot, event: Event)
    requires Valid(s) && !s.closed
    ensures var (t, offers) := Handled(s, event); Accounts(s, t, offers)
    decreases event
  {
    match event {
      case Submit(packet, post, inside) => SubmittedAccounts(s, packet, post, inside);
      case Receive(message, post, inside) => ReceivedAccounts(s, message, post, inside);
      case TakeBuffer(bytes) =>
      case Dispose =>
    }
  }

  lemma {:induction false} DrivenAccounts(s: Snapshot, events: seq<Event>)
    requires Valid(s) && !s.closed
    ensures var (t, offers) := Driven(s, events); Accounts(s, t, offers)
    decreases events, 0
  {
    if events != [] {
      var front, last := events[..|events| - 1], events[|events| - 1];
      var (t, offers) := Driven(s, front);
      DrivenIsValid(s, front);
      DrivenAccounts(s, front);
      var (u, more) := Handled(t, last);
      if t.closed {
        ClosedHandles(t, last);
        if last.Submit? {
          OneOffer(Offer(last.packet, false), []);
        }
        TakenConcat(offers, more);
      } else {
        HandledAccounts(t, last);
        AccountsStep(s, t, u, offers, more);
      }
    }
  }

  // ---------- The transport ----------

  class Transport {
    var inFlight: Option<int>
    var pending: Option<Packet>
    var recycled: seq<Buffer>
    var sequence: int
    var closed: bool

    ghost var accepted: seq<Packet>
    ghost var sent: seq<Packet>
    ghost var answers: seq<int>
    ghost var recovery: Option<Option<Packet>>
    ghost var disposed: bool
    ghost var thrown: Option<Packet>
    ghost var lost: bool

    ghost function State(): Snapshot
      reads this
    {
      Snapshot(inFlight, pending, recycled, sequence, closed,
               accepted, sent, answers, recovery, disposed, thrown, lost)
    }

    constructor ()
      ensures State() == NEW_TRANSPORT && Valid(State())
    {
      inFlight, pending, recycled, sequence, closed := None, None, [], 0, false;
      accepted, sent, answers, recovery, disposed, thrown, lost := [], [], [], None, false, None, false;
    }

    method Recycle(buffers: seq<Buffer>)
      modifies this`recycled
      ensures recycled == Recycled(old(recycled), buffers)
    {
      for k := 0 to |buffers|
        invariant recycled == Recycled(old(recycled), buffers[..k])
      {
        var b := buffers[k];
        assert buffers[..k + 1][..k] == buffers[..k];
        if b.bytes > 0 && |recycled| < 2 && b !in recycled {
          recycled := recycled + [b];
        }
      }
      assert buffers[..|buffers|] == buffers;
    }

    /** Hands out a recycled buffer of exactly the requested size, at most once. */
    method Take(bytes: nat) returns (taken: Option<Buffer>)
      modifies this`recycled
      ensures (taken, recycled) == TakenFrom(old(recycled), bytes)
    {
      for k := 0 to |recycled|
        invariant recycled == old(recycled)
        invariant forall j :: 0 <= j < k ==> recycled[j].bytes != bytes
      {
        if recycled[k].bytes == bytes {
          TakenSplit(recycled, bytes, k);
          assert recycled[k..][1..] == recycled[k + 1..];
          taken := Some(recycled[k]);
          recycled := recycled[..k] + recycled[k + 1..];
          return;
        }
      }
      TakenSplit(recycled, bytes, |recycled|);
      assert recycled[..|recycled|] + [] == recycled;
      taken := None;
    }

    method Clear()
      modifies this`closed, this`pending, this`inFlight, this`recycled
      ensures State() == Emptied(old(State()))
    {
      closed := true;
      pending, inFlight := None, None;
      recycled := [];
    }

    method Close()
      requires closed ==> inFlight.None? && pending.None? && recycled == []
      modifies this
      ensures State() == Disposed(old(State()))
    {
      disposed := disposed || !closed;
      Clear();
    }

    /** Closes first, then tells the owner; whatever the owner does in that callback is refused. */
    method Fail(inside: seq<Event>) returns (offers: seq<Offer>)
      requires !closed && Valid(Failed(State()))
      modifies this
      ensures State() == Failed(old(State())) && offers == Refusals(inside)
      decreases inside, 1
    {
      var kept := pending;
      Clear();
      recovery := Some(kept);
      ClosedRefuses(State(), inside);
      offers := Drive(inside);
    }

    method Send(packet: Packet, post: Post, inside: seq<Event>) returns (offers: seq<Offer>)
      requires !closed && Valid(Posting(State(), packet, post))
      modifies this
      ensures State() == Posting(old(State()), packet, post)
      ensures offers == if post.Posted? then [] else Refusals(inside)
      decreases inside, 2
    {
      offers := [];
      inFlight := Some(packet.sequence);
      match post {
        case Posted =>
          sent := sent + [packet];
        case ThrewOwned =>
          pending := Some(packet);
          offers := Fail(inside);
        case ThrewDetached =>
          lost := true;
          offers := Fail(inside);
      }
    }

    method Replace(packet: Packet)
      modifies this`recycled, this`pending
      ensures State() == Replaced(old(State()), packet)
    {
      if pending.Some? {
        Recycle(pending.value.buffers);
      }
      pending := Some(packet);
    }

    /** Takes an acceptable frame: sends it at once, or puts it in the place of the pending one. */
    method Enter(packet: Packet, post: Post, inside: seq<Event>) returns (offers: seq<Offer>)
      requires Valid(State()) && !closed && Acceptable(State(), packet)
      modifies this
      ensures State() == Entered(old(State()), packet, post)
      ensures offers == if closed then Refusals(inside) else []
      decreases inside, 4
    {
      EnteringIsValid(State(), packet, post);
      TakeIn(packet);
      if inFlight.Some? {
        Replace(packet);
        offers := [];
      } else {
        offers := Launch(packet, post, inside);
      }
    }

    method TakeIn(packet: Packet)
      modifies this`sequence, this`accepted
      ensures State() == Accept(old(State()), packet)
    {
      sequence := packet.sequence;
      accepted := accepted + [packet];
    }

    method Launch(packet: Packet, post: Post, inside: seq<Event>) returns (offers: seq<Offer>)
      requires !closed && thrown.None? && Valid(Posting(State(), packet, post))
      requires Posting(State(), packet, post).closed <==> !post.Posted?
      modifies this
      ensures State() == Launched(old(State()), packet, post)
      ensures offers == if post.Posted? then [] else Refusals(inside)
      decreases inside, 3
    {
      offers := Send(packet, post, inside);
      thrown := if closed then Some(packet) else None;
    }

    /** True exactly when the frame was accepted and either posted or left waiting. */
    method SubmitPacket(packet: Packet, post: Post, inside: seq<Event>) returns (ok: bool, offers: seq<Offer>)
      requires Valid(State())
      modifies this
      ensures Valid(State()) && State() == SubmittedTo(old(State()), packet, post)
      ensures ok == Accepts(old(State()), packet, post)
      ensures offers == Reported(old(State()), State(), inside)
      ensures !old(closed) && !ok ==> closed && sent == old(sent)
      ensures !old(closed) && (!packet.wellFormed || packet.sequence <= old(sequence)) ==>
                !ok && recovery == Some(old(pending)) && accepted == old(accepted)
      decreases inside, 5
    {
      SubmittedIsValid(State(), packet, post);
      if closed {
        return false, [];
      }
      SubmissionOutcome(State(), packet, post);
      if !packet.wellFormed || packet.sequence <= sequence {
        offers := Fail(inside);
        return false, offers;
      }
      offers := Enter(packet, post, inside);
      ok := !closed;
    }

    method Free(message: Message) returns (next: Option<Packet>)
      modifies this`inFlight, this`answers, this`recycled, this`pending
      ensures State() == Freed(old(State()), message) && next == old(pending)
    {
      inFlight := None;
      answers := answers + [message.sequence];
      Recycle(message.buffers);
      next := pending;
      pending := None;
    }

    /** Frees the credit and sends the pending frame, if there is one. */
    method Settle(message: Message, post: Post, inside: seq<Event>) returns (offers: seq<Offer>)
      requires !closed && Valid(Settled(State(), message, post))
      modifies this
      ensures State() == Settled(old(State()), message, post)
      ensures offers == if closed then Refusals(inside) else []
      decreases inside, 3
    {
      offers := [];
      var next := Free(message);
      if next.Some? {
        offers := Send(next.value, post, inside);
      }
    }

    method ReceiveMessage(message: Message, post: Post, inside: seq<Event>) returns (offers: seq<Offer>)
      requires Valid(State())
      modifies this
      ensures Valid(State()) && (State(), offers) == Received(old(State()), message, post, inside)
      ensures !old(closed) && message.ours && (message.protocol != 5 || message.kind.Error?) ==>
                closed && recovery == Some(old(pending)) && accepted == old(accepted) && sent == old(sent)
      ensures message.ours && message.protocol == 5 && !message.kind.Error?
              && old(inFlight) != Some(message.sequence) ==>
                State() == old(State()) && offers == []
      decreases inside, 5
    {
      ReceivedIsValid(State(), message, post, inside);
      if closed || !message.ours {
        return [];
      }
      if message.protocol != 5 || message.kind.Error? {
        offers := Fail(inside);
        return;
      }
      if inFlight != Some(message.sequence) || message.kind.Other? {
        return [];
      }
      offers := Conclude(message, post, inside);
    }

    method Conclude(message: Message, post: Post, inside: seq<Event>) returns (offers: seq<Offer>)
      requires Valid(State()) && !closed && inFlight == Some(message.sequence)
      modifies this
      ensures (State(), offers) == Concluded(old(State()), message, post, inside)
      decreases inside, 4
    {
      SettledIsValid(State(), message, post);
      offers := Settle(message, post, inside);
      if message.kind.Submitted? && !closed {
        offers := Drive(inside);
      }
    }

    method Handle(event: Event) returns (offers: seq<Offer>)
      requires Valid(State())
      modifies this
      ensures Valid(State()) && (State(), offers) == Handled(old(State()), event)
      decreases event
    {
      HandledIsValid(State(), event);
      match event {
        case Submit(packet, post, inside) =>
          var ok, more := SubmitPacket(packet, post, inside);
          offers := [Offer(packet, ok)] + more;
        case Receive(message, post, inside) =>
          offers := ReceiveMessage(message, post, inside);
        case TakeBuffer(bytes) =>
          var _ := Take(bytes);
          offers := [];
        case Dispose =>
          Close();
          offers := [];
      }
    }

    /** Any run of events, callbacks included, and every answer a sender got in it. */
    method Drive(events: seq<Event>) returns (offers: seq<Offer>)
      requires Valid(State())
      modifies this
      ensures Valid(State()) && (State(), offers) == Driven(old(State()), events) && Answered(sent, answers)
      ensures if old(closed) then State() == old(State()) && Taken(offers) == []
              else Accounts(old(State()), State(), offers)
      decreases events, 0
    {
      offers := [];
      for k := 0 to |events|
        invariant Valid(State()) && (State(), offers) == Driven(old(State()), events[..k])
      {
        assert events[..k + 1][..k] == events[..k];
        var more := Handle(events[k]);
        offers := offers + more;
      }
      assert events[..|events|] == events;
      if old(closed) {
        ClosedRefuses(old(State()), events);
        RefusalsTakeNothing(events);
      } else {
        DrivenAccounts(old(State()), events);
      }
    }
  }
}
