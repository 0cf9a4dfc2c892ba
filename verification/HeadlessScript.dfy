/** Scripted input for a headless run (systemless.rs): the order of the script, and a run loop whose
    outcome does not depend on how execution is cut into chunks. */
module InputScripts {
  import opened Base

  datatype Action =
    | MouseMove(v: int, h: int) | MouseDown(v: int, h: int) | MouseUp(v: int, h: int)
    | KeyDown(key: nat, ch: nat) | KeyUp(key: nat, ch: nat)

  datatype Event = Event(at: nat, action: Action)

  /** A parsed script line. */
  datatype Line =
    | Single(at: nat, action: Action)
    | Click(at: nat, v: int, h: int)
    | Press(at: nat, key: nat, ch: nat)

  /** A click and a key press are a down and an up at the same instant. */
  function Expanded(line: Line): seq<Event> {
    match line
    case Single(at, action) => [Event(at, action)]
    case Click(at, v, h) => [Event(at, MouseDown(v, h)), Event(at, MouseUp(v, h))]
    case Press(at, key, ch) => [Event(at, KeyDown(key, ch)), Event(at, KeyUp(key, ch))]
  }

  function Listed(lines: seq<Line>): seq<Event> {
    if lines == [] then [] else Listed(lines[..|lines| - 1]) + Expanded(lines[|lines| - 1])
  }

  /** What an up releases: a key, or the button where it went down. */
  function Releases(up: Action): Option<Action> {
    match up
    case MouseUp(v, h) => Some(MouseDown(v, h))
    case KeyUp(key, ch) => Some(KeyDown(key, ch))
    case _ => None
  }

  predicate IsDown(action: Action) { action.MouseDown? || action.KeyDown? }

  /** The downs of the first `n` events not yet released. */
  function Held(events: seq<Event>, n: nat): multiset<Action>
    requires n <= |events|
  {
    if n == 0 then multiset{}
    else
      var action, before := events[n - 1].action, Held(events, n - 1);
      if IsDown(action) then before + multiset{action}
      else if Releases(action).Some? then before - multiset{Releases(action).value}
      else before
  }

  /** No up without its down. */
  ghost predicate Paired(events: seq<Event>) {
    forall n :: 0 <= n < |events| && Releases(events[n].action).Some? ==>
      Releases(events[n].action).value in Held(events, n)
  }

  lemma {:induction false} HeldOfPrefix(a: seq<Event>, b: seq<Event>, n: nat)
    requires n <= |a|
    ensures Held(a + b, n) == Held(a, n)
  {
    if n > 0 {
      HeldOfPrefix(a, b, n - 1);
    }
  }

  /** A click or key press is a down at the line's time, and then the up that releases it. */
  ghost predicate IsPair(down: Event, up: Event, line: Line) {
    down.at == up.at == line.at && IsDown(down.action) && Releases(up.action) == Some(down.action)
  }

  lemma PairOf(line: Line)
    requires !line.Single?
    ensures |Expanded(line)| == 2 && IsPair(Expanded(line)[0], Expanded(line)[1], line)
  {
  }

  lemma HeldOverPair(events: seq<Event>, n: nat, line: Line)
    requires n + 2 == |events| && IsPair(events[n], events[n + 1], line) && Held(events, n) == multiset{}
    ensures Held(events, n + 1) == multiset{events[n].action} && Held(events, n + 2) == multiset{}
    ensures !Releases(events[n].action).Some?
  {
    assert Held(events, n + 1) == Held(events, n) + multiset{events[n].action};
    assert Held(events, n + 2) == Held(events, n + 1) - multiset{events[n].action};
  }

  lemma PairAppended(events: seq<Event>, down: Event, up: Event, line: Line, more: seq<Event>)
    requires Paired(events) && Held(events, |events|) == multiset{} && IsPair(down, up, line)
    requires more == events + [down, up]
    ensures Paired(more) && Held(more, |more|) == multiset{}
  {
    var n := |events|;
    HeldOfPrefix(events, [down, up], n);
    HeldOverPair(more, n, line);
    forall k | 0 <= k < |more| && Releases(more[k].action).Some?
      ensures Releases(more[k].action).value in Held(more, k)
    {
      if k < n {
        HeldOfPrefix(events, [down, up], k);
        assert Releases(events[k].action).value in Held(events, k);
      } else {
        assert k == n + 1;
      }
    }
  }

  /** A script of clicks and key presses releases each button and key after it went down, and a button where it
      did, and leaves nothing held. */
  lemma {:induction false} ClicksArePaired(lines: seq<Line>)
    requires forall line :: line in lines ==> !line.Single?
    ensures Paired(Listed(lines)) && Held(Listed(lines), |Listed(lines)|) == multiset{}
    ensures |Listed(lines)| == 2 * |lines|
    ensures forall k :: 0 <= k < |lines| ==> IsPair(Listed(lines)[2 * k], Listed(lines)[2 * k + 1], lines[k])
  {
    if lines != [] {
      var n := |lines| - 1;
      ClicksArePaired(lines[..n]);
      PairOf(lines[n]);
      var pair := Expanded(lines[n]);
      assert pair == [pair[0], pair[1]];
      PairAppended(Listed(lines[..n]), pair[0], pair[1], lines[n], Listed(lines));
    }
  }

  ghost predicate Ordered(script: seq<Event>) {
    forall i, j :: 0 <= i < j < |script| ==> script[i].at <= script[j].at
  }

  /** The events scheduled for one instant, in order. */
  function Instant(script: seq<Event>, at: nat): seq<Event> {
    if script == [] then []
    else
      var last := script[|script| - 1];
      Instant(script[..|script| - 1], at) + if last.at == at then [last] else []
  }

  lemma {:induction false} InstantOfConcat(a: seq<Event>, b: seq<Event>, at: nat)
    ensures Instant(a + b, at) == Instant(a, at) + Instant(b, at)
  {
    if b == [] {
      assert a + b == a;
    } else {
      assert (a + b)[..|a + b| - 1] == a + b[..|b| - 1];
      InstantOfConcat(a, b[..|b| - 1], at);
    }
  }

  /** The same events at every instant, in the same order. */
  ghost predicate SameInstants(a: seq<Event>, b: seq<Event>) {
    |a| == |b| && forall at :: Instant(a, at) == Instant(b, at)
  }

  lemma AppendKeepsInstants(a: seq<Event>, b: seq<Event>, event: Event)
    requires SameInstants(a, b)
    ensures SameInstants(a + [event], b + [event])
  {
    forall at ensures Instant(a + [event], at) == Instant(b + [event], at) {
      InstantOfConcat(a, [event], at);
      InstantOfConcat(b, [event], at);
    }
  }

  /** Inserts after every event that is not later. */
  method Insert(script: seq<Event>, event: Event) returns (wider: seq<Event>)
    requires Ordered(script)
    ensures Ordered(wider) && SameInstants(wider, script + [event])
  {
    var k := |script|;
    while k > 0 && script[k - 1].at > event.at
      invariant 0 <= k <= |script|
      invariant forall i :: k <= i < |script| ==> script[i].at > event.at
    {
      k := k - 1;
    }
    wider := script[..k] + [event] + script[k..];
    forall at ensures Instant(wider, at) == Instant(script + [event], at) {
      InsertKeepsInstants(script, event, k, at);
    }
  }

  lemma {:induction false} NoneLater(script: seq<Event>, at: nat)
    requires forall i :: 0 <= i < |script| ==> script[i].at > at
    ensures Instant(script, at) == []
  {
    if script != [] {
      NoneLater(script[..|script| - 1], at);
    }
  }

  lemma InsertKeepsInstants(script: seq<Event>, event: Event, k: nat, at: nat)
    requires k <= |script| && forall i :: k <= i < |script| ==> script[i].at > event.at
    ensures Instant(script[..k] + [event] + script[k..], at) == Instant(script + [event], at)
  {
    var early, late := script[..k], script[k..];
    InstantOfConcat(early + [event], late, at);
    InstantOfConcat(early, [event], at);
    assert script == early + late;
    InstantOfConcat(early, late, at);
    InstantOfConcat(script, [event], at);
    if event.at == at {
      NoneLater(late, at);
    } else {
      assert [event][..0] == [];
    }
  }

  method SortScript(list: seq<Event>) returns (script: seq<Event>)
    ensures Ordered(script) && SameInstants(script, list)
  {
    script := [];
    for i := 0 to |list|
      invariant Ordered(script) && SameInstants(script, list[..i])
    {
      AppendKeepsInstants(script, list[..i], list[i]);
      assert list[..i + 1] == list[..i] + [list[i]];
      script := Insert(script, list[i]);
    }
    assert list[..|list|] == list;
  }

  /** The script in order of time; at one instant, in the order it was written. */
  method ParseScript(lines: seq<Line>) returns (script: seq<Event>)
    ensures Ordered(script) && SameInstants(script, Listed(lines))
  {
    var list := [];
    for i := 0 to |lines|
      invariant list == Listed(lines[..i])
    {
      assert lines[..i + 1][..i] == lines[..i];
      list := list + Expanded(lines[i]);
    }
    assert lines[..|lines|] == lines;
    script := SortScript(list);
  }

  lemma InstantLast(a: seq<Event>, at: nat)
    requires a != []
    ensures var n := |a| - 1;
            Instant(a[..n], at) == if a[n].at == at then Instant(a, at)[..|Instant(a, at)| - 1] else Instant(a, at)
    ensures a[|a| - 1].at == at ==> Instant(a, at) != [] && Instant(a, at)[|Instant(a, at)| - 1] == a[|a| - 1]
  {
  }

  /** That order is the only one: ordered scripts with the same instants are the same. */
  lemma {:induction false} OrderIsUnique(a: seq<Event>, b: seq<Event>)
    requires Ordered(a) && Ordered(b) && SameInstants(a, b)
    ensures a == b
  {
    if a != [] {
      var n := |a| - 1;
      SameLast(a, b);
      forall at ensures Instant(a[..n], at) == Instant(b[..n], at) {
        InstantLast(a, at);
        InstantLast(b, at);
      }
      OrderIsUnique(a[..n], b[..n]);
      assert a == a[..n] + [a[n]] && b == b[..n] + [b[n]];
    }
  }

  lemma LastNotEarlier(a: seq<Event>, b: seq<Event>, at: nat)
    requires Ordered(a) && a != [] && b != [] && at == b[|b| - 1].at && Instant(a, at) == Instant(b, at)
    ensures a[|a| - 1].at >= at
  {
    InstantLast(b, at);
    if a[|a| - 1].at < at {
      NothingAfter(a, at);
    }
  }

  lemma SameLast(a: seq<Event>, b: seq<Event>)
    requires Ordered(a) && Ordered(b) && |a| == |b| > 0 && forall at :: Instant(a, at) == Instant(b, at)
    ensures a[|a| - 1] == b[|b| - 1]
  {
    var at := b[|b| - 1].at;
    LastNotEarlier(a, b, at);
    LastNotEarlier(b, a, a[|a| - 1].at);
    InstantLast(a, at);
    InstantLast(b, at);
  }

  lemma {:induction false} NothingAfter(a: seq<Event>, at: nat)
    requires forall i :: 0 <= i < |a| ==> a[i].at < at
    ensures Instant(a, at) == []
  {
    if a != [] {
      NothingAfter(a[..|a| - 1], at);
    }
  }
}

module HeadlessRuns {
  import opened Base
  import opened InputScripts

  /** A guest: what input and one instruction do to it, when it stops, and how it advances. */
  datatype Machine<!G(!new)> = Machine(input: (G, Action) -> G, next: G -> G, stopped: G -> bool,
                                       advance: (G, nat) -> Slice<G>)

  datatype Slice<G> = Slice(state: G, instructions: nat, running: bool)

  function Delivered<G(!new)>(m: Machine<G>, g: G, action: Action): G { m.input(g, action) }
  function Next<G(!new)>(m: Machine<G>, g: G): G { m.next(g) }
  predicate Stopped<G(!new)>(m: Machine<G>, g: G) { m.stopped(g) }
  function Advance<G(!new)>(m: Machine<G>, g: G, steps: nat): Slice<G> { m.advance(g, steps) }

  function Executed<G(!new)>(m: Machine<G>, g: G, steps: nat): G {
    if steps == 0 then g else Next(m, Executed(m, g, steps - 1))
  }

  /** Advancing executes instructions one by one, at least one unless the guest stops, at most as
      many as asked for, and never past a stop. */
  ghost predicate Advances<G(!new)>(m: Machine<G>, g: G, steps: nat) {
    var slice := Advance(m, g, steps);
    && slice.instructions <= steps && slice.state == Executed(m, g, slice.instructions)
    && (slice.running ==> slice.instructions > 0)
    && (slice.running <==> !Stopped(m, slice.state))
    && forall k: nat :: k < slice.instructions ==> !Stopped(m, Executed(m, g, k))
  }

  ghost predicate Lawful<G(!new)>(m: Machine<G>) {
    forall g, steps: nat :: steps > 0 ==> Advances(m, g, steps)
  }

  /** The state of a run: the guest, instructions retired, events delivered, and when. */
  datatype Run<G> = Run(guest: G, total: nat, next: nat, log: seq<(nat, Event)>)

  /** Delivers every event scheduled at or before this point. */
  function Deliver<G(!new)>(m: Machine<G>, script: seq<Event>, r: Run<G>): Run<G>
    decreases |script| - r.next
  {
    if r.next < |script| && script[r.next].at <= r.total
    then Deliver(m, script, Run(Delivered(m, r.guest, script[r.next].action), r.total, r.next + 1,
                                r.log + [(r.total, script[r.next])]))
    else r
  }

  /** The run one instruction at a time. */
  function Reference<G(!new)>(m: Machine<G>, script: seq<Event>, max: nat, r: Run<G>): Run<G>
    decreases max - r.total
  {
    if r.total >= max then r
    else
      var d := Deliver(m, script, r);
      DeliverKeepsTotal(m, script, r);
      if Stopped(m, d.guest) then d
      else
        var after := d.(guest := Next(m, d.guest), total := d.total + 1);
        if Stopped(m, after.guest) then after else Reference(m, script, max, after)
  }

  lemma {:induction false} DeliverKeepsTotal<G(!new)>(m: Machine<G>, script: seq<Event>, r: Run<G>)
    ensures var d := Deliver(m, script, r);
            d.total == r.total && (d.next < |script| ==> script[d.next].at > d.total)
    decreases |script| - r.next
  {
    if r.next < |script| && script[r.next].at <= r.total {
      DeliverKeepsTotal(m, script, Run(Delivered(m, r.guest, script[r.next].action), r.total, r.next + 1,
                                       r.log + [(r.total, script[r.next])]));
    }
  }

  function StepsUntilNextEvent(chunk: nat, remaining: nat, total: nat, nextAt: Option<nat>): nat {
    var bounded := Min(chunk, remaining);
    match nextAt
    case Some(at) => Min(bounded, Max(at - total, 1))
    case None => bounded
  }

  /** With nothing due, executing some instructions at once is executing them one by one. */
  lemma {:induction false} BatchIsSteps<G(!new)>(m: Machine<G>, script: seq<Event>, max: nat, d: Run<G>, steps: nat)
    requires d.total + steps <= max && (d.next < |script| ==> d.total + steps <= script[d.next].at)
    requires forall k: nat :: k < steps ==> !Stopped(m, Executed(m, d.guest, k))
    requires steps > 0
    ensures var after := d.(guest := Executed(m, d.guest, steps), total := d.total + steps);
            var one := d.(guest := Next(m, d.guest), total := d.total + 1);
            Finished(m, script, max, one) == Finished(m, script, max, after)
    decreases steps
  {
    assert Executed(m, d.guest, 1) == Next(m, Executed(m, d.guest, 0));
    if steps > 1 {
      var one := d.(guest := Next(m, d.guest), total := d.total + 1);
      forall k: nat ensures Executed(m, one.guest, k) == Executed(m, d.guest, k + 1) {
        ExecutedShift(m, d.guest, k);
      }
      assert !Stopped(m, Executed(m, d.guest, 1));
      BatchIsSteps(m, script, max, one, steps - 1);
      assert Deliver(m, script, one) == one;
      assert Executed(m, one.guest, steps - 1) == Executed(m, d.guest, steps);
    }
  }

  lemma {:induction false} ExecutedShift<G(!new)>(m: Machine<G>, g: G, k: nat)
    ensures Executed(m, Next(m, g), k) == Executed(m, g, k + 1)
  {
    if k > 0 {
      ExecutedShift(m, g, k - 1);
    } else {
      assert Executed(m, g, 0) == g;
    }
  }

  /** What remains after a slice: nothing once the guest has stopped. */
  function Finished<G(!new)>(m: Machine<G>, script: seq<Event>, max: nat, r: Run<G>): Run<G> {
    if Stopped(m, r.guest) then r else Reference(m, script, max, r)
  }

  lemma SliceIsSteps<G(!new)>(m: Machine<G>, script: seq<Event>, max: nat, d: Run<G>, n: nat)
    requires d.total < max && d.total + n <= max && (d.next < |script| ==> d.total + n <= script[d.next].at)
    requires forall k: nat :: k < n ==> !Stopped(m, Executed(m, d.guest, k))
    requires n == 0 ==> Stopped(m, d.guest)
    ensures var after := d.(guest := Executed(m, d.guest, n), total := d.total + n);
            (if Stopped(m, d.guest) then d
             else Finished(m, script, max, d.(guest := Next(m, d.guest), total := d.total + 1)))
            == Finished(m, script, max, after)
  {
    if n > 0 {
      assert Executed(m, d.guest, 0) == d.guest;
      BatchIsSteps(m, script, max, d, n);
    }
  }

  method DeliverDue<G(!new)>(m: Machine<G>, script: seq<Event>, start: Run<G>) returns (r: Run<G>)
    ensures r == Deliver(m, script, start)
  {
    r := start;
    while r.next < |script|
      invariant Deliver(m, script, r) == Deliver(m, script, start)
      decreases |script| - r.next
    {
      var event := script[r.next];
      if event.at > r.total {
        break;
      }
      r := Run(Delivered(m, r.guest, event.action), r.total, r.next + 1, r.log + [(r.total, event)]);
    }
  }

  /** What a run has delivered: the first `next` events, each at its own instant; what is left is
      not yet due. */
  ghost predicate OnTime<G>(script: seq<Event>, r: Run<G>) {
    && r.next == |r.log| <= |script|
    && (forall k :: 0 <= k < r.next ==> r.log[k] == (script[k].at, script[k]))
    && (forall k :: r.next <= k < |script| ==> script[k].at >= r.total)
  }

  lemma {:induction false} DeliverOnTime<G(!new)>(m: Machine<G>, script: seq<Event>, r: Run<G>)
    requires Ordered(script) && OnTime(script, r)
    ensures OnTime(script, Deliver(m, script, r)) && Deliver(m, script, r).total == r.total
    ensures forall k :: Deliver(m, script, r).next <= k < |script| ==> script[k].at > r.total
    ensures forall k :: r.next <= k < Deliver(m, script, r).next ==> script[k].at == r.total
    decreases |script| - r.next
  {
    if r.next < |script| && script[r.next].at <= r.total {
      DeliverOnTime(m, script, Run(Delivered(m, r.guest, script[r.next].action), r.total, r.next + 1,
                                   r.log + [(r.total, script[r.next])]));
    }
  }

  /** The run is on time and within its budget. It ends early only with a stopped guest, and an event
      at its very end has reached only a guest that then stopped. */
  ghost predicate EndsRight<G(!new)>(m: Machine<G>, script: seq<Event>, max: nat, end: Run<G>) {
    && OnTime(script, end) && end.total <= max
    && (forall k :: 0 <= k < end.next && script[k].at >= end.total ==>
          script[k].at == end.total < max && Stopped(m, end.guest))
    && (end.total < max ==> Stopped(m, end.guest))
  }

  /** A run delivers each event before its end exactly once, in order, when as many instructions
      have retired as the script says; it never passes the budget; and an event at the very end is
      delivered only to a guest that then stops without executing. */
  lemma {:induction false} RunOnTime<G(!new)>(m: Machine<G>, script: seq<Event>, max: nat, r: Run<G>)
    requires Ordered(script) && OnTime(script, r) && r.total <= max
    requires forall k :: 0 <= k < r.next ==> script[k].at < r.total
    ensures var end := Reference(m, script, max, r); r.total <= end.total && EndsRight(m, script, max, end)
    decreases max - r.total
  {
    if r.total < max {
      DeliverOnTime(m, script, r);
      var d := Deliver(m, script, r);
      var after := d.(guest := Next(m, d.guest), total := d.total + 1);
      if !Stopped(m, d.guest) && !Stopped(m, after.guest) {
        RunOnTime(m, script, max, after);
      }
    }
  }

  /** The run loop, in chunks: exactly the run one instruction at a time, whatever the chunk size
      and however the guest cuts its slices; and on time. */
  method RunHeadless<G(!new)>(m: Machine<G>, script: seq<Event>, max: nat, chunk: nat, guest: G) returns (r: Run<G>)
    requires Lawful(m) && chunk > 0
    ensures r == Reference(m, script, max, Run(guest, 0, 0, []))
    ensures Ordered(script) ==> EndsRight(m, script, max, r)
  {
    r := Run(guest, 0, 0, []);
    ghost var goal := Reference(m, script, max, r);
    while r.total < max
      invariant Reference(m, script, max, r) == goal && r.total <= max
      decreases max - r.total
    {
      ghost var before := r;
      r := DeliverDue(m, script, r);
      DeliverKeepsTotal(m, script, before);
      var steps := StepsUntilNextEvent(chunk, max - r.total, r.total,
                                       if r.next < |script| then Some(script[r.next].at) else None);
      ghost var d := r;
      assert Advances(m, r.guest, steps);
      var slice := Advance(m, r.guest, steps);
      r := r.(guest := slice.state, total := r.total + slice.instructions);
      SliceIsSteps(m, script, max, d, slice.instructions);
      if !slice.running {
        break;
      }
    }
    if Ordered(script) {
      RunOnTime(m, script, max, Run(guest, 0, 0, []));
    }
  }

  /** A script as written, parsed and run: every event before the end is delivered once, at its own
      instruction count, and events of one instant in the order they were written. */
  method RunScript<G(!new)>(m: Machine<G>, lines: seq<Line>, max: nat, chunk: nat, guest: G)
    returns (script: seq<Event>, r: Run<G>)
    requires Lawful(m) && chunk > 0
    ensures Ordered(script) && SameInstants(script, Listed(lines))
    ensures r == Reference(m, script, max, Run(guest, 0, 0, [])) && EndsRight(m, script, max, r)
  {
    script := ParseScript(lines);
    r := RunHeadless(m, script, max, chunk, guest);
  }
}
