/** The bounded command queue to the runtime worker (browser_bridge.rs). Movement may
    replace a trailing movement; nothing else is merged, dropped or reordered. */
module CommandQueues {
  import opened Base

  const MAX_IN_FLIGHT: nat := 8
  const MAX_PENDING: nat := 256
  const MAX_SAFE_INTEGER: nat := 0x1F_FFFF_FFFF_FFFF

  datatype Command = Move(v: int, h: int) | Action(id: nat) | Shutdown

  // ---------- What a stream of commands means ----------

  /** Running commands on any machine. */
  function Run<M>(apply: (M, Command) -> M, m: M, commands: seq<Command>): M {
    if commands == [] then m
    else apply(Run(apply, m, commands[..|commands| - 1]), commands[|commands| - 1])
  }

  /** A movement only sets the pointer, so a later movement overwrites an earlier one. */
  ghost predicate Overwrites<M(!new)>(apply: (M, Command) -> M) {
    forall m, a: Command, b: Command :: a.Move? && b.Move? ==> apply(apply(m, a), b) == apply(m, b)
  }

  /** The shortest equivalent stream: of each stretch of movements only the last. */
  function Collapse(commands: seq<Command>): seq<Command> {
    if commands == [] then []
    else Extend(Collapse(commands[..|commands| - 1]), commands[|commands| - 1])
  }

  function Extend(collapsed: seq<Command>, c: Command): seq<Command> {
    if c.Move? && collapsed != [] && collapsed[|collapsed| - 1].Move? then collapsed[..|collapsed| - 1] + [c]
    else collapsed + [c]
  }

  lemma CollapseAppend(commands: seq<Command>, c: Command)
    ensures Collapse(commands + [c]) == Extend(Collapse(commands), c)
  {
    assert (commands + [c])[..|commands|] == commands;
  }

  lemma RunAppend<M>(apply: (M, Command) -> M, m: M, commands: seq<Command>, c: Command)
    ensures Run(apply, m, commands + [c]) == apply(Run(apply, m, commands), c)
  {
    assert (commands + [c])[..|commands|] == commands;
  }

  /** Collapsing changes no machine's outcome. */
  lemma {:induction false} CollapseKeepsOutcome<M(!new)>(apply: (M, Command) -> M, m: M, commands: seq<Command>)
    requires Overwrites(apply)
    ensures Run(apply, m, Collapse(commands)) == Run(apply, m, commands)
  {
    if commands != [] {
      var front, c := commands[..|commands| - 1], commands[|commands| - 1];
      CollapseKeepsOutcome(apply, m, front);
      var collapsed := Collapse(front);
      if c.Move? && collapsed != [] && collapsed[|collapsed| - 1].Move? {
        var head := collapsed[..|collapsed| - 1];
        RunAppend(apply, m, head, c);
      } else {
        RunAppend(apply, m, collapsed, c);
      }
    }
  }

  /** Keys, buttons and saves, in order. */
  function Actions(commands: seq<Command>): seq<Command> {
    if commands == [] then []
    else
      var last := commands[|commands| - 1];
      Actions(commands[..|commands| - 1]) + if last.Move? then [] else [last]
  }

  lemma ActionsAppend(commands: seq<Command>, c: Command)
    ensures Actions(commands + [c]) == Actions(commands) + if c.Move? then [] else [c]
  {
    assert (commands + [c])[..|commands|] == commands;
  }

  lemma {:induction false} CollapseKeepsActions(commands: seq<Command>)
    ensures Actions(Collapse(commands)) == Actions(commands)
  {
    if commands != [] {
      var front, c := commands[..|commands| - 1], commands[|commands| - 1];
      CollapseKeepsActions(front);
      var collapsed := Collapse(front);
      if c.Move? && collapsed != [] && collapsed[|collapsed| - 1].Move? {
        var head := collapsed[..|collapsed| - 1];
        ActionsAppend(head, c);
        assert collapsed == head + [collapsed[|collapsed| - 1]];
      } else {
        ActionsAppend(collapsed, c);
      }
    }
  }

  /** The pointer position each key, button or save command is handled at. */
  datatype Observer = Observer(pointer: (int, int), seen: seq<(Command, (int, int))>)

  function Observe(): (Observer, Command) -> Observer {
    (o: Observer, c: Command) =>
      if c.Move? then o.(pointer := (c.v, c.h)) else o.(seen := o.seen + [(c, o.pointer)])
  }

  /** Streams with one collapsed form post the same commands in the same order, at the same
      pointer positions, and drive every machine to the same state. */
  lemma SameCollapseSameMeaning<M(!new)>(apply: (M, Command) -> M, m: M, start: Observer, a: seq<Command>,
                                         b: seq<Command>)
    requires Collapse(a) == Collapse(b)
    ensures Actions(a) == Actions(b)
    ensures Run(Observe(), start, a) == Run(Observe(), start, b)
    ensures Overwrites(apply) ==> Run(apply, m, a) == Run(apply, m, b)
  {
    CollapseKeepsActions(a);
    CollapseKeepsActions(b);
    CollapseKeepsOutcome(Observe(), start, a);
    CollapseKeepsOutcome(Observe(), start, b);
    if Overwrites(apply) {
      CollapseKeepsOutcome(apply, m, a);
      CollapseKeepsOutcome(apply, m, b);
    }
  }

  /** Replacing a trailing movement by a newer one amounts to appending the newer one. */
  lemma ReplacingMove(queue: seq<Command>, older: Command, newer: Command, accepted: seq<Command>)
    requires older.Move? && newer.Move? && Collapse(queue + [older]) == Collapse(accepted)
    ensures Collapse(queue + [newer]) == Collapse(accepted + [newer])
  {
    CollapseAppend(queue, older);
    CollapseAppend(queue, newer);
    CollapseAppend(accepted, newer);
  }

  // ---------- The queue ----------

  ghost predicate EndsInShutdown(commands: seq<Command>) {
    commands != [] && commands[|commands| - 1].Shutdown?
  }

  /** The posted and pending commands mean what the accepted ones mean, and end with a shutdown
      exactly when one was accepted. */
  ghost predicate Faithful(queue: seq<Command>, accepted: seq<Command>, shuttingDown: bool) {
    && Collapse(queue) == Collapse(accepted)
    && (shuttingDown <==> EndsInShutdown(queue))
    && (forall i :: 0 <= i < |queue| - 1 ==> !queue[i].Shutdown?)
  }

  lemma AppendKeepsFaith(queue: seq<Command>, accepted: seq<Command>, message: Command)
    requires Faithful(queue, accepted, false)
    ensures Faithful(queue + [message], accepted + [message], message.Shutdown?)
  {
    CollapseAppend(queue, message);
    CollapseAppend(accepted, message);
  }

  lemma ReplaceKeepsFaith(front: seq<Command>, last: Command, accepted: seq<Command>, message: Command)
    requires Faithful(front + [last], accepted, false) && last.Move? && message.Move?
    ensures Faithful(front + [message], accepted + [message], false)
  {
    ReplacingMove(front, last, message, accepted);
    assert forall i :: 0 <= i < |front| ==> (front + [last])[i] == front[i];
  }

  // ---------- One post, one acknowledgement ----------

  datatype Outcome = Accepted | StaleGeneration | ShuttingDown | Full | Exhausted

  /** The queue's fields, the worker's message channel, and everything accepted. */
  datatype Queue = Queue(sequence: nat, inFlight: set<nat>, pending: seq<Command>, shuttingDown: bool,
                         posted: seq<Command>, accepted: seq<Command>)

  const EMPTY_QUEUE := Queue(0, {}, [], false, [], [])

  /** Posts from the front while there is credit. Numbering is checked only after a command has
      left the queue, so the command taken at the last safe integer is lost. */
  function Drained(q: Queue): (Queue, bool)
    decreases |q.pending|
  {
    if q.pending == [] || |q.inFlight| >= MAX_IN_FLIGHT then (q, true)
    else if q.sequence == MAX_SAFE_INTEGER then (q.(pending := q.pending[1..]), false)
    else Drained(OneSent(q))
  }

  /** The oldest waiting command leaves under the next number. */
  function OneSent(q: Queue): Queue
    requires q.pending != []
  {
    q.(sequence := q.sequence + 1, inFlight := q.inFlight + {q.sequence + 1},
       pending := q.pending[1..], posted := q.posted + [q.pending[0]])
  }

  /** A movement behind a waiting movement. */
  predicate Merges(pending: seq<Command>, message: Command) {
    message.Move? && pending != [] && pending[|pending| - 1].Move?
  }

  /** The waiting commands with one more: it replaces a trailing movement if it merges. */
  function Queued(pending: seq<Command>, message: Command): seq<Command> {
    (if Merges(pending, message) then pending[..|pending| - 1] else pending) + [message]
  }

  function Taken(q: Queue, message: Command): Queue {
    q.(pending := Queued(q.pending, message), accepted := q.accepted + [message], shuttingDown := message.Shutdown?)
  }

  function PostTo(q: Queue, generation: nat, message: Command, from: nat): (Queue, Outcome) {
    if from != generation then (q, StaleGeneration)
    else if q.shuttingDown then (q, ShuttingDown)
    else if !Merges(q.pending, message) && |q.pending| >= MAX_PENDING && !message.Shutdown? then (q, Full)
    else
      var (drained, ok) := Drained(Taken(q, message));
      (drained, if ok then Accepted else Exhausted)
  }

  /** An acknowledgement frees one credit; stale and repeated ones do nothing. */
  function AcknowledgeTo(q: Queue, generation: nat, from: nat, number: nat): (Queue, bool) {
    if from != generation || number !in q.inFlight then (q, true)
    else Drained(q.(inFlight := q.inFlight - {number}))
  }

  /** The numbers after `sequence`, `k` of them. */
  function Numbers(sequence: nat, k: nat): (numbers: set<nat>)
    ensures forall n :: n in numbers <==> sequence < n <= sequence + k
  {
    if k == 0 then {} else Numbers(sequence, k - 1) + {sequence + k}
  }

  /** The `k` oldest waiting commands have left. */
  function Sent(q: Queue, k: nat): Queue
    requires k <= |q.pending|
  {
    q.(sequence := q.sequence + k, inFlight := q.inFlight + Numbers(q.sequence, k),
       pending := q.pending[k..], posted := q.posted + q.pending[..k])
  }

  lemma SentStep(q: Queue, k: nat)
    requires 0 < k <= |q.pending|
    ensures Sent(OneSent(q), k - 1) == Sent(q, k)
  {
    var next := OneSent(q);
    assert next.inFlight + Numbers(next.sequence, k - 1) == q.inFlight + Numbers(q.sequence, k);
    assert next.pending[k - 1..] == q.pending[k..];
    assert next.posted + next.pending[..k - 1] == q.posted + q.pending[..k];
  }

  lemma SentNone(q: Queue)
    ensures Sent(q, 0) == q
  {
    assert q.inFlight + Numbers(q.sequence, 0) == q.inFlight;
    assert q.pending[0..] == q.pending && q.posted + q.pending[..0] == q.posted;
  }

  /** How many commands the free credit carries. */
  function Credit(q: Queue): nat { Min(Max(MAX_IN_FLIGHT - |q.inFlight|, 0), |q.pending|) }

  /** In closed form: as many commands leave as there is credit, in order, each under its own number. */
  lemma {:induction false} DrainedExactly(q: Queue)
    requires (forall n :: n in q.inFlight ==> n <= q.sequence) && q.sequence + Credit(q) <= MAX_SAFE_INTEGER
    ensures Drained(q) == (Sent(q, Credit(q)), true)
    decreases |q.pending|
  {
    if Credit(q) == 0 {
      SentNone(q);
    } else {
      assert Credit(OneSent(q)) == Credit(q) - 1;
      DrainedExactly(OneSent(q));
      SentStep(q, Credit(q));
    }
  }

  /** Draining fails, and loses a command, exactly when the credit needs more numbers than are left. */
  lemma {:induction false} DrainFails(q: Queue)
    requires (forall n :: n in q.inFlight ==> n <= q.sequence) && q.sequence <= MAX_SAFE_INTEGER
    ensures !Drained(q).1 <==> q.sequence + Credit(q) > MAX_SAFE_INTEGER
    ensures !Drained(q).1 ==> |Drained(q).0.posted + Drained(q).0.pending| == |q.posted + q.pending| - 1
    decreases |q.pending|
  {
    if Credit(q) > 0 && q.sequence < MAX_SAFE_INTEGER {
      assert Credit(OneSent(q)) == Credit(q) - 1;
      DrainFails(OneSent(q));
    }
  }

  // ---------- What every state keeps ----------

  /** No movement waits directly behind another. */
  ghost predicate Apart(commands: seq<Command>) {
    forall i, j :: 0 <= i && j == i + 1 && j < |commands| ==> !(commands[i].Move? && commands[j].Move?)
  }

  /** Such commands cannot be coalesced any further. */
  lemma {:induction false} ApartIsCollapsed(commands: seq<Command>)
    requires Apart(commands)
    ensures Collapse(commands) == commands
  {
    if commands != [] {
      ApartIsCollapsed(commands[..|commands| - 1]);
    }
  }

  lemma QueuedApart(pending: seq<Command>, message: Command)
    requires Apart(pending)
    ensures Apart(Queued(pending, message))
  {
    var now := Queued(pending, message);
    forall i, j | 0 <= i && j == i + 1 && j < |now| ensures !(now[i].Move? && now[j].Move?) {
      if j < |pending| {
        assert !(pending[i].Move? && pending[j].Move?);
      }
    }
  }

  ghost predicate Bounded(q: Queue) {
    && (forall n :: n in q.inFlight ==> 1 <= n <= q.sequence)
    && |q.inFlight| <= MAX_IN_FLIGHT && |q.pending| <= (if q.shuttingDown then MAX_PENDING + 1 else MAX_PENDING)
    && |q.posted| == q.sequence && Faithful(q.posted + q.pending, q.accepted, q.shuttingDown)
    && Apart(q.pending)
  }

  /** At most eight commands are in flight, and a command waits only behind exactly eight. */
  ghost predicate Sound(q: Queue) {
    Bounded(q) && (q.pending != [] ==> |q.inFlight| == MAX_IN_FLIGHT)
  }

  lemma SendIsBounded(q: Queue)
    requires Bounded(q) && q.pending != [] && |q.inFlight| < MAX_IN_FLIGHT
    ensures Bounded(OneSent(q)) && OneSent(q).posted + OneSent(q).pending == q.posted + q.pending
  {
    assert q.posted + [q.pending[0]] + q.pending[1..] == q.posted + q.pending;
  }

  lemma {:induction false} DrainIsSound(q: Queue)
    requires Bounded(q) && q.sequence + |q.pending| <= MAX_SAFE_INTEGER
    ensures var (d, ok) := Drained(q);
            ok && Sound(d) && d.posted + d.pending == q.posted + q.pending && q.posted <= d.posted
            && d.accepted == q.accepted && d.sequence + |d.pending| == q.sequence + |q.pending|
    decreases |q.pending|
  {
    if q.pending != [] && |q.inFlight| < MAX_IN_FLIGHT {
      SendIsBounded(q);
      DrainIsSound(OneSent(q));
    }
  }

  lemma TakeKeepsFaith(q: Queue, message: Command)
    requires Faithful(q.posted + q.pending, q.accepted, false)
    ensures Faithful(q.posted + Queued(q.pending, message), q.accepted + [message], message.Shutdown?)
  {
    var was := q.posted + q.pending;
    if Merges(q.pending, message) {
      var front, last := q.pending[..|q.pending| - 1], q.pending[|q.pending| - 1];
      assert was == (q.posted + front) + [last];
      ReplaceKeepsFaith(q.posted + front, last, q.accepted, message);
      assert q.posted + Queued(q.pending, message) == (q.posted + front) + [message];
    } else {
      AppendKeepsFaith(was, q.accepted, message);
      assert q.posted + Queued(q.pending, message) == was + [message];
    }
  }

  lemma TakeIsBounded(q: Queue, message: Command)
    requires Sound(q) && !q.shuttingDown
             && (Merges(q.pending, message) || |q.pending| < MAX_PENDING || message.Shutdown?)
    ensures Bounded(Taken(q, message))
  {
    TakeKeepsFaith(q, message);
    QueuedApart(q.pending, message);
  }

  lemma PostIsSound(q: Queue, generation: nat, message: Command, from: nat)
    requires Sound(q) && q.sequence + |q.pending| < MAX_SAFE_INTEGER
    ensures var (p, outcome) := PostTo(q, generation, message, from);
            && Sound(p) && !outcome.Exhausted? && q.posted <= p.posted
            && p.accepted == (if outcome.Accepted? then q.accepted + [message] else q.accepted)
            && p.sequence + |p.pending| <= q.sequence + |q.pending| + 1
  {
    if PostTo(q, generation, message, from).1 !in {StaleGeneration, ShuttingDown, Full} {
      TakeIsBounded(q, message);
      DrainIsSound(Taken(q, message));
    }
  }

  /** The freed credit carries the next waiting command, under a new number. */
  lemma FreedCreditIsUsed(q: Queue, number: nat)
    requires Sound(q) && q.sequence + |q.pending| <= MAX_SAFE_INTEGER && number in q.inFlight
    ensures var freed := q.(inFlight := q.inFlight - {number});
            Drained(freed) == (if q.pending == [] then freed else OneSent(freed), true)
  {
    var freed := q.(inFlight := q.inFlight - {number});
    if q.pending != [] {
      assert |freed.inFlight| == MAX_IN_FLIGHT - 1;
      assert OneSent(freed).inFlight == freed.inFlight + {q.sequence + 1};
      assert |OneSent(freed).inFlight| == MAX_IN_FLIGHT;
      assert Drained(freed) == Drained(OneSent(freed));
    }
  }

  lemma AcknowledgeIsSound(q: Queue, generation: nat, from: nat, number: nat)
    requires Sound(q) && q.sequence + |q.pending| <= MAX_SAFE_INTEGER
    ensures var (a, ok) := AcknowledgeTo(q, generation, from, number);
            && ok && Sound(a) && a.posted + a.pending == q.posted + q.pending && a.accepted == q.accepted
            && a.sequence + |a.pending| == q.sequence + |q.pending|
  {
    if from == generation && number in q.inFlight {
      DrainIsSound(q.(inFlight := q.inFlight - {number}));
    }
  }

  /** An acknowledgement of a number in flight frees it for good and posts the next waiting command,
      if there is one; any other changes nothing. */
  lemma AcknowledgedExactly(q: Queue, generation: nat, from: nat, number: nat)
    requires Sound(q) && q.sequence + |q.pending| <= MAX_SAFE_INTEGER
    ensures var a := AcknowledgeTo(q, generation, from, number).0;
            if from != generation || number !in q.inFlight then a == q
            else
              && number !in a.inFlight
              && if q.pending == [] then a == q.(inFlight := q.inFlight - {number})
                 else
                   && a.posted == q.posted + [q.pending[0]] && a.pending == q.pending[1..]
                   && q.sequence + 1 in a.inFlight
  {
    if from == generation && number in q.inFlight {
      FreedCreditIsUsed(q, number);
    }
  }

  // ---------- Runs ----------

  datatype Event = Post(message: Command, from: nat) | Acknowledge(from: nat, number: nat)

  function Next(q: Queue, generation: nat, event: Event): Queue {
    match event
    case Post(message, from) => PostTo(q, generation, message, from).0
    case Acknowledge(from, number) => AcknowledgeTo(q, generation, from, number).0
  }

  function After(generation: nat, events: seq<Event>): Queue {
    if events == [] then EMPTY_QUEUE
    else Next(After(generation, events[..|events| - 1]), generation, events[|events| - 1])
  }

  /** `n` actions, each acknowledged before the next. */
  function InTurn(generation: nat, n: nat): (events: seq<Event>)
    ensures |events| == 2 * n
  {
    if n == 0 then [] else InTurn(generation, n - 1) + [Post(Action(0), generation), Acknowledge(generation, n)]
  }

  function Repeated(n: nat): (actions: seq<Command>)
    ensures |actions| == n
  {
    seq(n, _ => Action(0))
  }

  /** Nothing waits, nothing is in flight, and `n` numbers are used. */
  function Idle(n: nat): Queue { Queue(n, {}, [], false, Repeated(n), Repeated(n)) }

  lemma {:induction false} IdleIsReached(generation: nat, n: nat)
    requires n <= MAX_SAFE_INTEGER
    ensures After(generation, InTurn(generation, n)) == Idle(n)
  {
    if n > 0 {
      IdleIsReached(generation, n - 1);
      var before, events := InTurn(generation, n - 1), InTurn(generation, n);
      assert events[..2 * n - 1] == before + [Post(Action(0), generation)];
      assert events[..2 * n - 1][..2 * n - 2] == before;
      PostToIdle(generation, n - 1, Action(0));
      AcknowledgeLast(generation, n);
    }
  }

  lemma PostToIdle(generation: nat, n: nat, message: Command)
    requires n < MAX_SAFE_INTEGER && !message.Shutdown?
    ensures PostTo(Idle(n), generation, message, generation) ==
            (Queue(n + 1, {n + 1}, [], false, Repeated(n) + [message], Repeated(n) + [message]), Accepted)
  {
    var taken := Taken(Idle(n), message);
    assert taken.pending == [message];
    assert Drained(taken) == Drained(OneSent(taken));
    assert OneSent(taken).pending == [] && OneSent(taken).inFlight == {n + 1};
  }

  lemma AcknowledgeLast(generation: nat, n: nat)
    requires 0 < n
    ensures AcknowledgeTo(Queue(n, {n}, [], false, Repeated(n - 1) + [Action(0)], Repeated(n - 1) + [Action(0)]),
                          generation, generation, n) == (Idle(n), true)
  {
    assert Repeated(n - 1) + [Action(0)] == Repeated(n);
    assert {n} - {n} == {};
  }

  /** The queue the code reaches: after 2^53 - 1 acknowledged actions nothing waits and nothing is in
      flight, and whatever is posted next is accepted into the queue and lost. */
  lemma LastNumberLosesCommand(generation: nat, message: Command)
    ensures var q := After(generation, InTurn(generation, MAX_SAFE_INTEGER));
            var (p, outcome) := PostTo(q, generation, message, generation);
            && Sound(q) && q.sequence == MAX_SAFE_INTEGER && q.inFlight == {} && q.pending == []
            && outcome == Exhausted && p.accepted == q.accepted + [message]
            && p.posted == q.posted && p.pending == []
  {
    IdleIsReached(generation, MAX_SAFE_INTEGER);
    IdleIsSound(MAX_SAFE_INTEGER);
    var taken := Taken(Idle(MAX_SAFE_INTEGER), message);
    assert taken.pending == [message] && taken.pending[1..] == [];
    assert Drained(taken) == (taken.(pending := []), false);
  }

  lemma IdleIsSound(n: nat)
    ensures Sound(Idle(n))
  {
    assert Repeated(n) + [] == Repeated(n);
  }

  /** What the sender of event `i` is told; an acknowledgement is never refused. */
  function Told(generation: nat, events: seq<Event>, i: nat): Outcome
    requires i < |events|
  {
    match events[i]
    case Post(message, from) => PostTo(After(generation, events[..i]), generation, message, from).1
    case Acknowledge(_, _) => Accepted
  }

  /** The commands posted in a run whose sender was told they were accepted. */
  function AcceptedOf(events: seq<Event>, outcomes: seq<Outcome>): seq<Command>
    requires |events| == |outcomes|
  {
    if events == [] then []
    else
      var n := |events| - 1;
      var before := AcceptedOf(events[..n], outcomes[..n]);
      if events[n].Post? && outcomes[n].Accepted? then before + [events[n].message] else before
  }

  lemma {:induction false} RunIsSound(generation: nat, events: seq<Event>, outcomes: seq<Outcome>)
    requires |events| == |outcomes| <= MAX_SAFE_INTEGER
    requires forall i :: 0 <= i < |events| ==> outcomes[i] == Told(generation, events, i)
    ensures var q := After(generation, events);
            Sound(q) && q.accepted == AcceptedOf(events, outcomes) && q.sequence + |q.pending| <= |events|
  {
    if events != [] {
      var n := |events| - 1;
      forall i | 0 <= i < n ensures outcomes[..n][i] == Told(generation, events[..n], i) {
        assert events[..n][..i] == events[..i];
      }
      RunIsSound(generation, events[..n], outcomes[..n]);
      var q := After(generation, events[..n]);
      match events[n] {
        case Post(message, from) => PostIsSound(q, generation, message, from);
        case Acknowledge(from, number) => AcknowledgeIsSound(q, generation, from, number);
      }
    }
  }

  /** What a sender is told, by the state of the queue. */
  lemma PostOutcome(q: Queue, generation: nat, message: Command, from: nat)
    requires Sound(q) && q.sequence + |q.pending| < MAX_SAFE_INTEGER
    ensures var told := PostTo(q, generation, message, from).1;
            && (told.StaleGeneration? <==> from != generation)
            && (told.ShuttingDown? <==> from == generation && q.shuttingDown)
            && (told.Full? <==>
                  && from == generation && !q.shuttingDown
                  && |q.pending| == MAX_PENDING && !message.Shutdown?
                  && !(message.Move? && q.pending[|q.pending| - 1].Move?))
            && !told.Exhausted?
  {
    PostIsSound(q, generation, message, from);
  }

  lemma ShutdownAccepted(q: Queue)
    requires Sound(q)
    ensures q.shuttingDown <==> exists c :: c in q.accepted && c.Shutdown?
  {
    ShutdownKept(q.posted + q.pending, q.accepted);
    var queue := q.posted + q.pending;
    if queue != [] {
      assert queue[|queue| - 1] in queue;
    }
  }

  /** Each refusal has exactly one cause. */
  lemma RefusalCauses(generation: nat, events: seq<Event>, i: nat)
    requires i < |events| <= MAX_SAFE_INTEGER && events[i].Post?
    ensures var q, told, message := After(generation, events[..i]), Told(generation, events, i), events[i].message;
            && (told.StaleGeneration? <==> events[i].from != generation)
            && (told.ShuttingDown? <==> events[i].from == generation && exists c :: c in q.accepted && c.Shutdown?)
            && (told.Full? <==>
                  && events[i].from == generation && (forall c :: c in q.accepted ==> !c.Shutdown?)
                  && |q.pending| == MAX_PENDING && !message.Shutdown?
                  && !(message.Move? && q.pending[|q.pending| - 1].Move?))
            && !told.Exhausted?
  {
    var before := events[..i];
    var outcomes := seq(i, k requires 0 <= k < i => Told(generation, before, k));
    RunIsSound(generation, before, outcomes);
    var q := After(generation, before);
    PostOutcome(q, generation, events[i].message, events[i].from);
    ShutdownAccepted(q);
  }

  lemma ShutdownKept(queue: seq<Command>, accepted: seq<Command>)
    requires Collapse(queue) == Collapse(accepted)
    ensures (exists c :: c in queue && c.Shutdown?) <==> (exists c :: c in accepted && c.Shutdown?)
  {
    CollapseKeepsShutdown(queue);
    CollapseKeepsShutdown(accepted);
  }

  lemma {:induction false} CollapseKeepsShutdown(commands: seq<Command>)
    ensures (exists c :: c in Collapse(commands) && c.Shutdown?) <==> (exists c :: c in commands && c.Shutdown?)
  {
    if commands != [] {
      var n := |commands| - 1;
      CollapseKeepsShutdown(commands[..n]);
      var shorter, last := Collapse(commands[..n]), commands[n];
      assert commands == commands[..n] + [last];
      assert shorter != [] ==> shorter == shorter[..|shorter| - 1] + [shorter[|shorter| - 1]];
    }
  }

  // ---------- The queue ----------

  class CommandQueue {
    const generation: nat
    var sequence: nat
    var inFlight: set<nat>
    var pending: seq<Command>
    var shuttingDown: bool

    // The worker's message channel: every command posted so far.
    var posted: seq<Command>

    ghost var accepted: seq<Command>

    ghost function State(): Queue
      reads this
    {
      Queue(sequence, inFlight, pending, shuttingDown, posted, accepted)
    }

    constructor (generation: nat)
      ensures this.generation == generation && State() == EMPTY_QUEUE
    {
      this.generation := generation;
      sequence, inFlight, pending, shuttingDown := 0, {}, [], false;
      accepted, posted := [], [];
    }

    method Drain() returns (ok: bool)
      modifies this`sequence, this`inFlight, this`pending, this`posted
      ensures (State(), ok) == Drained(old(State()))
    {
      while pending != [] && |inFlight| < MAX_IN_FLIGHT
        invariant Drained(State()) == Drained(old(State()))
        decreases |pending|
      {
        var message := pending[0];
        if sequence == MAX_SAFE_INTEGER {
          pending := pending[1..];
          return false;
        }
        pending := pending[1..];
        sequence := sequence + 1;
        inFlight := inFlight + {sequence};
        posted := posted + [message];
      }
      ok := true;
    }

    method Post(message: Command, from: nat) returns (outcome: Outcome)
      modifies this
      ensures (State(), outcome) == PostTo(old(State()), generation, message, from)
    {
      if from != generation {
        return StaleGeneration;
      }
      if shuttingDown {
        return ShuttingDown;
      }
      var full := Enqueue(message);
      if full {
        return Full;
      }
      var ok := Drain();
      outcome := if ok then Accepted else Exhausted;
    }

    /** Merges a movement into a trailing movement, else appends; refuses exactly when 256 wait and
        the command neither merges nor shuts down. */
    method Enqueue(message: Command) returns (full: bool)
      modifies this`pending, this`accepted, this`shuttingDown
      requires !shuttingDown
      ensures full <==> !Merges(old(pending), message) && |old(pending)| >= MAX_PENDING && !message.Shutdown?
      ensures State() == if full then old(State()) else Taken(old(State()), message)
      ensures message.Move? && old(pending) != [] && old(pending)[|old(pending)| - 1].Move? ==>
                !full && pending == old(pending)[..|old(pending)| - 1] + [message]
    {
      if message.Move? && pending != [] && pending[|pending| - 1].Move? {
        pending := pending[..|pending| - 1] + [message];
      } else {
        if |pending| >= MAX_PENDING && !message.Shutdown? {
          return true;
        }
        pending := pending + [message];
      }
      shuttingDown := message.Shutdown?;
      accepted := accepted + [message];
      full := false;
    }

    method Acknowledge(from: nat, number: nat) returns (ok: bool)
      modifies this
      ensures (State(), ok) == AcknowledgeTo(old(State()), generation, from, number)
    {
      if from != generation || number !in inFlight {
        return true;
      }
      inFlight := inFlight - {number};
      ok := Drain();
    }
  }

  /** Every run, event by event: each sender is told what the queue of the earlier events says; what
      was posted, followed by what still waits, means exactly the commands accepted, in order, for
      every machine; nothing follows a shutdown; at most eight commands are in flight, and some wait
      only behind exactly eight. */
  method RunQueue(generation: nat, events: seq<Event>)
    returns (outcomes: seq<Outcome>, stream: seq<Command>, waiting: seq<Command>, inFlight: set<nat>)
    requires |events| <= MAX_SAFE_INTEGER
    ensures |outcomes| == |events| && forall i :: 0 <= i < |events| ==> outcomes[i] == Told(generation, events, i)
    ensures var q := After(generation, events); stream == q.posted && waiting == q.pending && inFlight == q.inFlight
    ensures Collapse(stream + waiting) == Collapse(AcceptedOf(events, outcomes))
    ensures Actions(stream + waiting) == Actions(AcceptedOf(events, outcomes))
    ensures forall start: Observer ::
              Run(Observe(), start, stream + waiting) == Run(Observe(), start, AcceptedOf(events, outcomes))
    ensures forall i :: 0 <= i < |stream + waiting| - 1 ==> !(stream + waiting)[i].Shutdown?
    ensures Collapse(waiting) == waiting
    ensures forall i :: 0 < i < |waiting| ==> !(waiting[i - 1].Move? && waiting[i].Move?)
    ensures |inFlight| <= MAX_IN_FLIGHT && |waiting| <= MAX_PENDING + 1
            && (waiting != [] ==> |inFlight| == MAX_IN_FLIGHT)
  {
    var queue := new CommandQueue(generation);
    outcomes := [];
    for n := 0 to |events|
      invariant fresh(queue) && queue.generation == generation && queue.State() == After(generation, events[..n])
      invariant |outcomes| == n && forall i :: 0 <= i < n ==> outcomes[i] == Told(generation, events, i)
    {
      assert events[..n + 1][..n] == events[..n];
      var outcome := Accepted;
      match events[n] {
        case Post(message, from) =>
          outcome := queue.Post(message, from);
        case Acknowledge(from, number) =>
          var _ := queue.Acknowledge(from, number);
      }
      outcomes := outcomes + [outcome];
    }
    assert events[..|events|] == events;
    RunIsSound(generation, events, outcomes);
    stream, waiting, inFlight := queue.posted, queue.pending, queue.inFlight;
    ApartIsCollapsed(waiting);
    SameMeaning(stream + waiting, AcceptedOf(events, outcomes));
  }

  lemma SameMeaning(a: seq<Command>, b: seq<Command>)
    requires Collapse(a) == Collapse(b)
    ensures Actions(a) == Actions(b) && forall start: Observer :: Run(Observe(), start, a) == Run(Observe(), start, b)
  {
    forall start: Observer ensures Run(Observe(), start, a) == Run(Observe(), start, b) {
      SameCollapseSameMeaning(Observe(), start, start, a, b);
    }
    SameCollapseSameMeaning(Observe(), Observer((0, 0), []), Observer((0, 0), []), a, b);
  }
}
