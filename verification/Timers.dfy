/** The timer queue as a value: each entry holds the time that is left after the one before. */
module TimerSpec {
  import opened Mbox

  type Handler = nat
  type Arg = nat

  const NULL: nat := 0

  datatype Entry = Entry(time: nat, h: Handler, arg: Arg)

  /** A timer by the moment it is due on the queue's own clock. */
  datatype Timer = Timer(due: nat, h: Handler, arg: Arg)

  function Insert(q: seq<Entry>, ms: nat, h: Handler, arg: Arg): (r: seq<Entry>)
    ensures |r| == |q| + 1
  {
    if q == [] then [Entry(ms, h, arg)]
    else if q[0].time > ms then
      [Entry(ms, h, arg), q[0].(time := q[0].time - ms)] + q[1..]
    else [q[0]] + Insert(q[1..], ms - q[0].time, h, arg)
  }

  function Remove(q: seq<Entry>, h: Handler, arg: Arg): (r: seq<Entry>) {
    if q == [] then []
    else if q[0].h == h && q[0].arg == arg then
      if |q| == 1 then [] else [q[1].(time := q[1].time + q[0].time)] + q[2..]
    else [q[0]] + Remove(q[1..], h, arg)
  }

  function Total(q: seq<Entry>): nat {
    if q == [] then 0 else q[0].time + Total(q[1..])
  }

  /** The queue with moments instead of differences. */
  function Timers(q: seq<Entry>, clock: nat): (r: seq<Timer>)
    ensures |r| == |q|
  {
    if q == [] then []
    else
      var due := clock + q[0].time;
      [Timer(due, q[0].h, q[0].arg)] + Timers(q[1..], due)
  }

  /** Insertion by due moment, behind those due at the same moment. */
  function InsertByDue(l: seq<Timer>, t: Timer): seq<Timer> {
    if l == [] then [t]
    else if l[0].due > t.due then [t] + l
    else [l[0]] + InsertByDue(l[1..], t)
  }

  function RemoveFirst(l: seq<Timer>, h: Handler, arg: Arg): seq<Timer> {
    if l == [] then []
    else if l[0].h == h && l[0].arg == arg then l[1..]
    else [l[0]] + RemoveFirst(l[1..], h, arg)
  }

  function FirstMatch(l: seq<Timer>, h: Handler, arg: Arg): seq<Timer> {
    if l == [] then []
    else if l[0].h == h && l[0].arg == arg then [l[0]]
    else FirstMatch(l[1..], h, arg)
  }

  /** The new timer stands behind all that are due no later and in front of all others. */
  lemma {:induction false} InsertionPlace(l: seq<Timer>, t: Timer) returns (k: nat)
    requires SortedByDue(l)
    ensures k <= |l| && InsertByDue(l, t) == l[..k] + [t] + l[k..]
    ensures forall i | 0 <= i < k :: l[i].due <= t.due
    ensures forall i | k <= i < |l| :: l[i].due > t.due
  {
    if l == [] || l[0].due > t.due {
      k := 0;
    } else {
      k := InsertionPlace(l[1..], t);
      assert l == [l[0]] + l[1..];
      k := k + 1;
    }
  }

  /** The first timer of this handler goes, and no other. */
  lemma {:induction false} RemovalPlace(l: seq<Timer>, h: Handler, arg: Arg, k: nat)
    requires k < |l| && l[k].h == h && l[k].arg == arg
    requires forall i | 0 <= i < k :: l[i].h != h || l[i].arg != arg
    ensures RemoveFirst(l, h, arg) == l[..k] + l[k + 1..]
  {
    if k > 0 {
      RemovalPlace(l[1..], h, arg, k - 1);
    }
  }

  ghost predicate SortedByDue(l: seq<Timer>) {
    forall i, j | 0 <= i < j < |l| :: l[i].due <= l[j].due
  }

  lemma {:induction false} TimersSorted(q: seq<Entry>, clock: nat)
    ensures SortedByDue(Timers(q, clock))
    ensures forall t | t in Timers(q, clock) :: clock <= t.due <= clock + Total(q)
  {
    if q != [] {
      TimersSorted(q[1..], clock + q[0].time);
    }
  }

  /** Splitting a difference is stable insertion into the list sorted by due moment. */
  lemma {:induction false} InsertIsInsertionByDue(q: seq<Entry>, ms: nat, h: Handler, arg: Arg, clock: nat)
    ensures Timers(Insert(q, ms, h, arg), clock)
         == InsertByDue(Timers(q, clock), Timer(clock + ms, h, arg))
  {
    if q == [] {
      assert Insert(q, ms, h, arg)[1..] == [];
    } else if q[0].time > ms {
      var r := Insert(q, ms, h, arg);
      assert r[1..][1..] == q[1..];
    } else {
      InsertIsInsertionByDue(q[1..], ms - q[0].time, h, arg, clock + q[0].time);
      assert Insert(q, ms, h, arg)[1..] == Insert(q[1..], ms - q[0].time, h, arg);
    }
  }

  /** Giving a difference back leaves every other due moment where it was. */
  lemma {:induction false} RemoveIsRemovalOfFirst(q: seq<Entry>, h: Handler, arg: Arg, clock: nat)
    ensures Timers(Remove(q, h, arg), clock) == RemoveFirst(Timers(q, clock), h, arg)
  {
    if q == [] {
    } else if q[0].h == h && q[0].arg == arg {
      if |q| > 1 {
        assert Remove(q, h, arg)[1..] == q[1..][1..];
      }
    } else {
      RemoveIsRemovalOfFirst(q[1..], h, arg, clock + q[0].time);
      assert Remove(q, h, arg)[1..] == Remove(q[1..], h, arg);
    }
  }

  ghost predicate Queued(q: seq<Entry>, h: Handler, arg: Arg) {
    exists i | 0 <= i < |q| :: q[i].h == h && q[i].arg == arg
  }

  lemma {:induction false} CancelUndoesInsert(q: seq<Entry>, ms: nat, h: Handler, arg: Arg)
    requires !Queued(q, h, arg)
    ensures Remove(Insert(q, ms, h, arg), h, arg) == q
  {
    if q == [] {
    } else if q[0].time > ms {
      assert [q[0]] + q[1..] == q;
    } else {
      assert forall i | 0 <= i < |q[1..]| :: q[1..][i] == q[i + 1];
      assert !Queued(q[1..], h, arg);
      CancelUndoesInsert(q[1..], ms - q[0].time, h, arg);
      assert Insert(q, ms, h, arg)[1..] == Insert(q[1..], ms - q[0].time, h, arg);
    }
  }

  /** No sum of differences outgrows a word, so no operation on them wraps. */
  lemma {:induction false} InsertKeepsTotal(q: seq<Entry>, ms: nat, h: Handler, arg: Arg)
    ensures Total(Insert(q, ms, h, arg)) == if ms > Total(q) then ms else Total(q)
  {
    var r := Insert(q, ms, h, arg);
    if q == [] {
      assert r[1..] == [];
    } else if q[0].time > ms {
      assert r[1..][1..] == q[1..];
    } else {
      InsertKeepsTotal(q[1..], ms - q[0].time, h, arg);
      assert r[1..] == Insert(q[1..], ms - q[0].time, h, arg);
    }
  }

  lemma {:induction false} RemoveKeepsTotal(q: seq<Entry>, h: Handler, arg: Arg)
    ensures Total(Remove(q, h, arg)) <= Total(q)
  {
    var r := Remove(q, h, arg);
    if q == [] {
    } else if q[0].h == h && q[0].arg == arg {
      if |q| > 1 {
        assert r[1..] == q[1..][1..];
      }
    } else {
      RemoveKeepsTotal(q[1..], h, arg);
      assert r[1..] == Remove(q[1..], h, arg);
    }
  }

  /**
   * The queue, its clock (the time charged to it so far), the ticks that really went
   * by, the timers that fired and the clock at each of those moments, and all timers
   * ever inserted and ever cancelled.
   */
  datatype State = State(
    q: seq<Entry>,
    clock: nat,
    ticks: nat,
    fired: seq<Timer>,
    firedAt: seq<nat>,
    inserted: seq<Timer>,
    cancelled: seq<Timer>)

  datatype Event =
    | Add(ms: u32, h: Handler, arg: Arg)
    | Cancel(h: Handler, arg: Arg)
    | Wait(outcome: Outcome)

  function Start(): State {
    Idle([])
  }

  /** The head expires: the clock moves on by its difference. */
  function Fire(s: State, ticks: nat): State
    requires s.q != []
  {
    var now := s.clock + s.q[0].time;
    s.(q := s.q[1..], clock := now, ticks := s.ticks + ticks,
       fired := s.fired + [Timer(now, s.q[0].h, s.q[0].arg)], firedAt := s.firedAt + [now])
  }

  /** A message came: the wait is charged to the head, as far as the head has time. */
  function Charge(s: State, start: u32, ticks: nat): State
    requires s.q != []
  {
    var spent := Reported(start, ticks);
    var head := s.q[0].time;
    var charged := if spent < head then spent else head;
    s.(q := s.q[0 := s.q[0].(time := head - charged)],
       clock := s.clock + charged, ticks := s.ticks + ticks)
  }

  function Idle(q: seq<Entry>): State {
    State(q, 0, 0, [], [], [], [])
  }

  /** One pass of the fetch loop. With nothing queued it waits for a message for ever. */
  function Pass(s: State, outcome: Outcome): State {
    if s.q == [] then
      (match outcome
       case Expired(_) => s
       case Received(_, ticks) => s.(ticks := s.ticks + ticks))
    else if s.q[0].time == 0 then Fire(s, 0)
    else
      match outcome
      case Expired(ticks) => Fire(s, ticks)
      case Received(start, ticks) => Charge(s, start, ticks)
  }

  function Step(s: State, ev: Event): State {
    match ev
    case Add(ms, h, arg) =>
      s.(q := Insert(s.q, ms, h, arg), inserted := s.inserted + [Timer(s.clock + ms, h, arg)])
    case Cancel(h, arg) =>
      s.(q := Remove(s.q, h, arg), cancelled := s.cancelled + FirstMatch(Timers(s.q, s.clock), h, arg))
    case Wait(outcome) => Pass(s, outcome)
  }

  function Run(s: State, events: seq<Event>): State
    decreases |events|
  {
    if events == [] then s else Run(Step(s, events[0]), events[1..])
  }

  function Count(l: seq<Timer>, t: Timer): nat {
    if l == [] then 0 else (if l[0] == t then 1 else 0) + Count(l[1..], t)
  }

  /** Every timer inserted has fired, or was cancelled, or is queued for the same moment. */
  ghost predicate Balanced(s: State, t: Timer) {
    Count(s.inserted, t)
    == Count(s.fired, t) + Count(s.cancelled, t) + Count(Timers(s.q, s.clock), t)
  }

  /** Timers fire on the clock tick they are due, hence in due order. */
  ghost predicate FiredOnTime(s: State) {
    && |s.firedAt| == |s.fired|
    && (forall i | 0 <= i < |s.fired| :: s.firedAt[i] == s.fired[i].due <= s.clock)
    && SortedByDue(s.fired)
  }

  ghost predicate Faithful(s: State) {
    && (forall t :: Balanced(s, t))
    && FiredOnTime(s)
    && Total(s.q) < LIMIT
  }

  lemma {:induction false} CountConcat(a: seq<Timer>, b: seq<Timer>, t: Timer)
    ensures Count(a + b, t) == Count(a, t) + Count(b, t)
  {
    if a == [] {
      assert a + b == b;
    } else {
      CountConcat(a[1..], b, t);
      assert (a + b)[0] == a[0] && (a + b)[1..] == a[1..] + b;
    }
  }

  lemma {:induction false} InsertByDueCounts(l: seq<Timer>, x: Timer, t: Timer)
    ensures Count(InsertByDue(l, x), t) == Count(l, t) + Count([x], t)
  {
    if l == [] {
    } else if l[0].due > x.due {
      CountConcat([x], l, t);
    } else {
      InsertByDueCounts(l[1..], x, t);
      assert InsertByDue(l, x)[1..] == InsertByDue(l[1..], x);
    }
  }

  lemma {:induction false} RemoveFirstCounts(l: seq<Timer>, h: Handler, arg: Arg, t: Timer)
    ensures Count(l, t) == Count(RemoveFirst(l, h, arg), t) + Count(FirstMatch(l, h, arg), t)
  {
    if l == [] {
    } else if l[0].h == h && l[0].arg == arg {
      assert [l[0]][1..] == [];
    } else {
      RemoveFirstCounts(l[1..], h, arg, t);
      assert RemoveFirst(l, h, arg)[1..] == RemoveFirst(l[1..], h, arg);
    }
  }

  lemma StepKeepsBalance(s: State, ev: Event, t: Timer)
    requires Balanced(s, t)
    ensures Balanced(Step(s, ev), t)
  {
    var l := Timers(s.q, s.clock);
    match ev
    case Add(ms, h, arg) =>
      var x := Timer(s.clock + ms, h, arg);
      InsertIsInsertionByDue(s.q, ms, h, arg, s.clock);
      InsertByDueCounts(l, x, t);
      CountConcat(s.inserted, [x], t);
    case Cancel(h, arg) =>
      RemoveIsRemovalOfFirst(s.q, h, arg, s.clock);
      RemoveFirstCounts(l, h, arg, t);
      CountConcat(s.cancelled, FirstMatch(l, h, arg), t);
    case Wait(outcome) => PassKeepsBalance(s, outcome, t);
  }

  lemma PassKeepsBalance(s: State, outcome: Outcome, t: Timer)
    requires Balanced(s, t)
    ensures Balanced(Pass(s, outcome), t)
  {
    var r, l := Pass(s, outcome), Timers(s.q, s.clock);
    if |r.q| < |s.q| {
      assert l == [l[0]] + Timers(r.q, r.clock);
      CountConcat([l[0]], Timers(r.q, r.clock), t);
      CountConcat(s.fired, [l[0]], t);
    } else if s.q != [] {
      assert r.q[1..] == s.q[1..];
    }
  }

  lemma StepKeepsTimesOrdered(s: State, ev: Event)
    requires FiredOnTime(s) && Total(s.q) < LIMIT
    ensures FiredOnTime(Step(s, ev)) && Total(Step(s, ev).q) < LIMIT
  {
    match ev
    case Add(ms, h, arg) => InsertKeepsTotal(s.q, ms, h, arg);
    case Cancel(h, arg) => RemoveKeepsTotal(s.q, h, arg);
    case Wait(outcome) =>
      if |Step(s, ev).q| == |s.q| > 0 {
        assert Step(s, ev).q[1..] == s.q[1..];
      }
  }

  /** This holds over every run of insertions, cancellations and fetches. */
  lemma {:induction false} RunIsFaithful(s: State, events: seq<Event>)
    requires Faithful(s)
    ensures Faithful(Run(s, events))
    decreases |events|
  {
    if events != [] {
      forall t
        ensures Balanced(Step(s, events[0]), t)
      {
        StepKeepsBalance(s, events[0], t);
      }
      StepKeepsTimesOrdered(s, events[0]);
      RunIsFaithful(Step(s, events[0]), events[1..]);
    }
  }

  /** The queue answers a timeout only after the ticks it was asked to wait for. */
  ghost predicate QueueWaits(s: State, ev: Event) {
    ev.Wait? && ev.outcome.Expired? && s.q != [] && s.q[0].time < LIMIT ==>
      ev.outcome.ticks >= WaitTicks(s.q[0].time)
  }

  /** Along a run the queue waits, and no difference waited for exceeds the longest. */
  ghost predicate Timely(s: State, events: seq<Event>)
    decreases |events|
  {
    events == [] ||
    (&& QueueWaits(s, events[0])
     && (events[0].Wait? && s.q != [] ==> s.q[0].time <= LONGEST)
     && Timely(Step(s, events[0]), events[1..]))
  }

  /**
   * Against real time, at two milliseconds a tick, the clock gains over any stretch of a
   * run at most a millisecond for each timer fired in it, from the rounding of its wait.
   */
  lemma {:induction false} ClockGainsAtMostRounding(s: State, events: seq<Event>)
    requires Timely(s, events)
    ensures var r := Run(s, events);
            r.clock - s.clock <= 2 * (r.ticks - s.ticks) + (|r.fired| - |s.fired|)
    decreases |events|
  {
    if events != [] {
      var ev := events[0];
      if ev.Wait? && s.q != [] && s.q[0].time > 0 {
        match ev.outcome
        case Expired(ticks) => WaitIsFaithfulIff(s.q[0].time);
        case Received(start, ticks) => ReportedNeverExceedsReal(start, ticks);
      }
      ClockGainsAtMostRounding(Step(s, ev), events[1..]);
    }
  }

  /** The rounding is reached: three milliseconds are over after one tick. */
  lemma RoundingIsReached(h: Handler, arg: Arg)
    ensures var events := [Add(3, h, arg), Wait(Expired(1))];
            && Timely(Start(), events)
            && var r := Run(Start(), events);
               r.clock == 3 && r.ticks == 1 && |r.fired| == 1
  {
    var events := [Add(3, h, arg), Wait(Expired(1))];
    var one := Step(Start(), events[0]);
    var two := Step(one, events[1]);
    assert one.q == [Entry(3, h, arg)] && WaitTicks(3) == 1;
    assert events[1..][0] == events[1] && events[1..][1..] == [];
    assert Run(one, events[1..]) == Run(two, []);
    assert Timely(two, []);
    assert Timely(one, events[1..]);
  }

  /**
   * A message that comes while the head still has time takes what the wait is reported to
   * have lasted off the head, down to nothing, and moves the clock on by as much.
   */
  lemma ReceivedChargesHead(s: State, start: u32, ticks: nat)
    requires s.q != [] && s.q[0].time > 0
    ensures var r := Step(s, Wait(Received(start, ticks)));
            var spent := Reported(start, ticks);
            && r.fired == s.fired && |r.q| == |s.q| && r.q[1..] == s.q[1..]
            && r.q[0].h == s.q[0].h && r.q[0].arg == s.q[0].arg
            && r.q[0].time == (if spent < s.q[0].time then s.q[0].time - spent else 0)
            && r.clock - s.clock == s.q[0].time - r.q[0].time
            && r.ticks == s.ticks + ticks
  {
  }

  /** Without a wrap that is two milliseconds for each tick. */
  lemma ReceivedChargesRealTime(s: State, start: u32, ticks: nat)
    requires s.q != [] && 0 < 2 * ticks <= s.q[0].time
    requires start + ticks < LIMIT && ticks * 1000 < LIMIT
    ensures var r := Step(s, Wait(Received(start, ticks)));
            r.clock == s.clock + 2 * ticks && r.q[0].time == s.q[0].time - 2 * ticks
  {
    ReportIsExactIff(start, ticks);
    ReceivedChargesHead(s, start, ticks);
  }

  /** The ticks of all waits with something queued. */
  function QueuedTicks(s: State, events: seq<Event>): nat
    decreases |events|
  {
    if events == [] then 0
    else (if s.q != [] then Step(s, events[0]).ticks - s.ticks else 0) + QueuedTicks(Step(s, events[0]), events[1..])
  }

  /**
   * Along a run no report wraps and no message comes later than the head is due, and the
   * queue answers a timeout at once after the ticks it was asked to wait for.
   */
  ghost predicate Punctual(s: State, events: seq<Event>)
    decreases |events|
  {
    events == [] ||
    (&& (events[0].Wait? && s.q != [] && s.q[0].time > 0 ==>
           match events[0].outcome
           case Received(start, ticks) =>
             2 * ticks <= s.q[0].time && start + ticks < LIMIT && ticks * 1000 < LIMIT
           case Expired(ticks) => s.q[0].time <= LONGEST && ticks == WaitTicks(s.q[0].time))
     && Punctual(Step(s, events[0]), events[1..]))
  }

  /**
   * The clock keeps up with real time: over any stretch of such a run it loses, while
   * something is queued, at most a millisecond for each timer fired. So no timer is put
   * off by the messages that come before it is due.
   */
  lemma {:induction false} ClockLosesAtMostRounding(s: State, events: seq<Event>)
    requires Punctual(s, events)
    ensures var r := Run(s, events);
            2 * QueuedTicks(s, events) <= (r.clock - s.clock) + (|r.fired| - |s.fired|)
    decreases |events|
  {
    if events != [] {
      var ev := events[0];
      if ev.Wait? && s.q != [] && s.q[0].time > 0 {
        match ev.outcome
        case Expired(ticks) => WaitIsFaithfulIff(s.q[0].time);
        case Received(start, ticks) => ReportIsExactIff(start, ticks);
      }
      ClockLosesAtMostRounding(Step(s, ev), events[1..]);
    }
  }

  /** A head with no time left fires before anything is waited for. */
  lemma ZeroFiresAtOnce(s: State, outcome: Outcome)
    requires s.q != [] && s.q[0].time == 0
    ensures var r := Step(s, Wait(outcome));
            && r.fired == s.fired + [Timer(s.clock, s.q[0].h, s.q[0].arg)]
            && r.q == s.q[1..] && r.clock == s.clock && r.ticks == s.ticks
  {
  }

  /** Waits that expire fire the timers in the order of the queue, each once, and nothing else. */
  lemma {:induction false} ExpiriesFireInOrder(s: State, waits: seq<Event>)
    requires |waits| <= |s.q|
    requires forall e | e in waits :: e.Wait? && e.outcome.Expired?
    ensures Run(s, waits).fired == s.fired + Timers(s.q, s.clock)[..|waits|]
    ensures Run(s, waits).q == s.q[|waits|..]
    decreases |waits|
  {
    if waits != [] {
      var next, l := Step(s, waits[0]), Timers(s.q, s.clock);
      ExpiryFiresHead(s, waits[0]);
      ExpiriesFireInOrder(next, waits[1..]);
      TakenInOrder(s.fired, l, |waits|);
    }
  }

  lemma ExpiryFiresHead(s: State, e: Event)
    requires s.q != [] && e.Wait? && e.outcome.Expired?
    ensures var next, l := Step(s, e), Timers(s.q, s.clock);
            next.fired == s.fired + [l[0]] && next.q == s.q[1..] && Timers(next.q, next.clock) == l[1..]
  {
  }

  lemma TakenInOrder(done: seq<Timer>, l: seq<Timer>, k: nat)
    requires 0 < k <= |l|
    ensures done + [l[0]] + l[1..][..k - 1] == done + l[..k]
  {
    assert l[..k] == [l[0]] + l[1..][..k - 1];
  }

  /** With a longer difference the first wait already fires the timer early. */
  lemma LongTimeoutFiresEarly(ms: u32, h: Handler, arg: Arg)
    requires ms > LONGEST
    ensures var ticks := WaitTicks(ms);
            var r := Run(Start(), [Add(ms, h, arg), Wait(Expired(ticks))]);
            && r.fired == [Timer(ms, h, arg)]
            && r.ticks == ticks
            && 2 * r.ticks + 1 < r.fired[0].due
  {
    WaitIsFaithfulIff(ms);
    var ticks := WaitTicks(ms);
    var events := [Add(ms, h, arg), Wait(Expired(ticks))];
    var one := Step(Start(), events[0]);
    var two := Step(one, events[1]);
    assert events[1..][1..] == [];
    assert Run(Start(), events) == Run(two, []);
    assert one.q == [Entry(ms, h, arg)];
  }

  function Occurrences(q: seq<Entry>, h: Handler, arg: Arg): nat {
    if q == [] then 0
    else (if q[0].h == h && q[0].arg == arg then 1 else 0) + Occurrences(q[1..], h, arg)
  }

  lemma {:induction false} QueuedIffOccurs(q: seq<Entry>, h: Handler, arg: Arg)
    ensures Queued(q, h, arg) <==> Occurrences(q, h, arg) > 0
  {
    if q != [] {
      QueuedIffOccurs(q[1..], h, arg);
      if Queued(q, h, arg) {
        var i :| 0 <= i < |q| && q[i].h == h && q[i].arg == arg;
        assert i > 0 ==> q[1..][i - 1] == q[i];
      }
      if Queued(q[1..], h, arg) {
        var i :| 0 <= i < |q[1..]| && q[1..][i].h == h && q[1..][i].arg == arg;
        assert q[i + 1] == q[1..][i];
      }
    }
  }

  lemma {:induction false} RemoveTakesOne(q: seq<Entry>, h: Handler, arg: Arg)
    ensures Occurrences(Remove(q, h, arg), h, arg)
         == if Occurrences(q, h, arg) > 0 then Occurrences(q, h, arg) - 1 else 0
  {
    var r := Remove(q, h, arg);
    if q == [] {
    } else if q[0].h == h && q[0].arg == arg {
      if |q| > 1 {
        assert r[1..] == q[1..][1..];
      }
    } else {
      RemoveTakesOne(q[1..], h, arg);
      assert r[1..] == Remove(q[1..], h, arg);
    }
  }

  lemma {:induction false} InsertOthers(q: seq<Entry>, ms: nat, h: Handler, arg: Arg, h': Handler, arg': Arg)
    requires h != h' || arg != arg'
    ensures Occurrences(Insert(q, ms, h, arg), h', arg') == Occurrences(q, h', arg')
  {
    var r := Insert(q, ms, h, arg);
    if q == [] {
      assert r[1..] == [];
    } else if q[0].time > ms {
      assert r[1..][1..] == q[1..];
    } else {
      InsertOthers(q[1..], ms - q[0].time, h, arg, h', arg');
      assert r[1..] == Insert(q[1..], ms - q[0].time, h, arg);
    }
  }

  lemma {:induction false} RemoveAddsNone(q: seq<Entry>, h: Handler, arg: Arg, h': Handler, arg': Arg)
    ensures Occurrences(Remove(q, h, arg), h', arg') <= Occurrences(q, h', arg')
  {
    var r := Remove(q, h, arg);
    if q == [] {
    } else if q[0].h == h && q[0].arg == arg {
      if |q| > 1 {
        assert r[1..] == q[1..][1..];
      }
    } else {
      RemoveAddsNone(q[1..], h, arg, h', arg');
      assert r[1..] == Remove(q[1..], h, arg);
    }
  }

  /** A handler that is not queued runs no more until it is inserted again. */
  lemma {:induction false} UnqueuedNeverFires(s: State, events: seq<Event>, h: Handler, arg: Arg)
    requires Occurrences(s.q, h, arg) == 0
    requires forall e | e in events && e.Add? :: e.h != h || e.arg != arg
    ensures var r := Run(s, events);
            && s.fired <= r.fired
            && forall i | |s.fired| <= i < |r.fired| :: r.fired[i].h != h || r.fired[i].arg != arg
    decreases |events|
  {
    if events != [] {
      var next := Step(s, events[0]);
      match events[0] {
        case Add(ms, h', arg') => InsertOthers(s.q, ms, h', arg', h, arg);
        case Cancel(h', arg') => RemoveAddsNone(s.q, h', arg', h, arg);
        case Wait(outcome) =>
          if |next.q| == |s.q| > 0 {
            assert next.q[1..] == s.q[1..];
          }
      }
      UnqueuedNeverFires(next, events[1..], h, arg);
    }
  }

  function Adds(events: seq<Event>, h: Handler, arg: Arg): nat {
    if events == [] then 0
    else (if events[0].Add? && events[0].h == h && events[0].arg == arg then 1 else 0)
         + Adds(events[1..], h, arg)
  }

  lemma {:induction false} InsertAddsOne(q: seq<Entry>, ms: nat, h: Handler, arg: Arg)
    ensures Occurrences(Insert(q, ms, h, arg), h, arg) == Occurrences(q, h, arg) + 1
  {
    var r := Insert(q, ms, h, arg);
    if q == [] {
      assert r[1..] == [];
    } else if q[0].time > ms {
      assert r[1..][1..] == q[1..];
    } else {
      InsertAddsOne(q[1..], ms - q[0].time, h, arg);
      assert r[1..] == Insert(q[1..], ms - q[0].time, h, arg);
    }
  }

  lemma {:induction false} QueuedAtMostAdded(s: State, events: seq<Event>, h: Handler, arg: Arg)
    ensures Occurrences(Run(s, events).q, h, arg) <= Occurrences(s.q, h, arg) + Adds(events, h, arg)
    decreases |events|
  {
    if events != [] {
      var next := Step(s, events[0]);
      match events[0] {
        case Add(ms, h', arg') =>
          if h' == h && arg' == arg {
            InsertAddsOne(s.q, ms, h, arg);
          } else {
            InsertOthers(s.q, ms, h', arg', h, arg);
          }
        case Cancel(h', arg') => RemoveAddsNone(s.q, h', arg', h, arg);
        case Wait(outcome) =>
          if |next.q| == |s.q| > 0 {
            assert next.q[1..] == s.q[1..];
          }
      }
      QueuedAtMostAdded(next, events[1..], h, arg);
    }
  }

  /**
   * A timer inserted once and then cancelled does not run its handler afterwards,
   * whatever else happens on the queue before and after the cancellation.
   */
  lemma CancelledTimerNeverRuns(s: State, before: seq<Event>, after: seq<Event>, h: Handler, arg: Arg)
    requires !Queued(s.q, h, arg)
    requires Adds(before, h, arg) <= 1
    requires forall e | e in after && e.Add? :: e.h != h || e.arg != arg
    ensures var cancelled := Step(Run(s, before), Cancel(h, arg));
            var end := Run(cancelled, after);
            && cancelled.fired <= end.fired
            && forall i | |cancelled.fired| <= i < |end.fired| ::
                 end.fired[i].h != h || end.fired[i].arg != arg
  {
    var q := Run(s, before).q;
    QueuedIffOccurs(s.q, h, arg);
    QueuedAtMostAdded(s, before, h, arg);
    RemoveTakesOne(q, h, arg);
    UnqueuedNeverFires(Step(Run(s, before), Cancel(h, arg)), after, h, arg);
  }
}

/** The queue as the C code keeps it: a singly linked list changed in place. */
module Timers {
  import opened Mbox
  import opened TimerSpec

  class Timeo {
    var next: Timeo?
    var time: u32
    var h: Handler
    var arg: Arg

    constructor (time: u32, h: Handler, arg: Arg)
      ensures this.next == null && this.time == time && this.h == h && this.arg == arg
    {
      this.next, this.time, this.h, this.arg := null, time, h, arg;
    }
  }

  /** r is s with x put in front of position k. */
  ghost predicate IsPut<T>(r: seq<T>, s: seq<T>, k: nat, x: T) {
    && k <= |s| == |r| - 1
    && r[k] == x
    && (forall i | 0 <= i < k :: r[i] == s[i])
    && (forall i | k < i < |r| :: r[i] == s[i - 1])
  }

  /** r is s without the element at position k. */
  ghost predicate IsDrop<T>(r: seq<T>, s: seq<T>, k: nat) {
    && k <= |r| == |s| - 1
    && (forall i | 0 <= i < k :: r[i] == s[i])
    && (forall i | k <= i < |r| :: r[i] == s[i + 1])
  }

  lemma Room<T>(s: seq<T>, k: nat, x: T) returns (r: seq<T>)
    requires k <= |s|
    ensures IsPut(r, s, k, x)
  {
    r := s[..k] + [x] + s[k..];
  }

  lemma Gap<T>(s: seq<T>, k: nat) returns (r: seq<T>)
    requires k < |s|
    ensures IsDrop(r, s, k)
  {
    r := s[..k] + s[k + 1..];
  }

  /** One of the next_timeout lists; q is what its nodes spell. */
  class TimerQueue {
    var head: Timeo?
    var calls: seq<(Handler, Arg)>
    ghost var nodes: seq<Timeo>
    ghost var repr: set<Timeo>
    ghost var q: seq<Entry>

    ghost function At(i: nat): Timeo?
      reads this`nodes
    {
      if i < |nodes| then nodes[i] else null
    }

    ghost predicate Linked()
      reads this`head, this`nodes, this`repr, repr`next
    {
      && head == At(0)
      && (forall i | 0 <= i < |nodes| :: nodes[i] in repr)
      && (forall i: nat | i < |nodes| :: Leads(i))
    }

    ghost predicate Leads(i: nat)
      requires i < |nodes| && nodes[i] in repr
      reads this`nodes, this`repr, repr`next
    {
      nodes[i].next == At(i + 1)
    }

    /** These nodes hold these entries, in order. */
    ghost predicate Spells(ns: seq<Timeo>, es: seq<Entry>)
      reads this`repr, repr`time, repr`h, repr`arg
    {
      && |es| == |ns|
      && forall i | 0 <= i < |ns| ::
           ns[i] in repr && Entry(ns[i].time, ns[i].h, ns[i].arg) == es[i]
    }

    ghost predicate Spelled()
      reads this`nodes, this`q, this`repr, repr`time, repr`h, repr`arg
    {
      Spells(nodes, q)
    }

    ghost predicate Valid()
      reads this, repr
    {
      Linked() && Spelled() && Total(q) < LIMIT
    }

    /** A list that ends has no node twice. */
    lemma {:induction false} Apart(i: nat, j: nat)
      requires Linked() && i < j < |nodes|
      ensures nodes[i] != nodes[j]
      decreases |nodes| - j
    {
      assert Leads(i) && Leads(j);
      if nodes[i] == nodes[j] {
        assert At(i + 1) == At(j + 1);
        Apart(i + 1, j + 1);
      }
    }

    lemma Once(k: nat)
      requires Linked() && k < |nodes|
      ensures forall i | 0 <= i < |nodes| && i != k :: nodes[i] != nodes[k]
    {
      forall i | 0 <= i < |nodes| && i != k
        ensures nodes[i] != nodes[k]
      {
        if i < k {
          Apart(i, k);
        } else {
          Apart(k, i);
        }
      }
    }

    constructor ()
      ensures Valid() && q == [] && calls == []
    {
      head, calls := null, [];
      nodes, q, repr := [], [], {};
    }

    method LinkFirst(n: Timeo, ghost ns: seq<Timeo>)
      requires Linked() && n in repr && n !in nodes && IsPut(ns, nodes, 0, n)
      modifies this`head, this`nodes, n`next
      ensures Linked() && nodes == ns
    {
      n.next := head;
      head := n;
      nodes := ns;
      forall i: nat | 0 < i < |nodes|
        ensures Leads(i)
      {
        assert old(Leads(i - 1));
      }
    }

    method LinkBehind(t: Timeo, n: Timeo, ghost k: nat, ghost ns: seq<Timeo>)
      requires Linked() && n in repr && n !in nodes && k < |nodes| && t == nodes[k]
      requires IsPut(ns, nodes, k + 1, n)
      modifies this`nodes, t`next, n`next
      ensures Linked() && nodes == ns
    {
      Once(k);
      assert Leads(k);
      n.next := t.next;
      t.next := n;
      nodes := ns;
      assert Leads(k) && Leads(k + 1);
      forall i: nat | i < |nodes| && i != k && i != k + 1
        ensures Leads(i)
      {
        assert if i < k then old(Leads(i)) else old(Leads(i - 1));
      }
    }

    /** Takes node k out of the list; prev is the node before it, if there is one. */
    method Unlink(prev: Timeo?, t: Timeo, ghost k: nat, ghost ns: seq<Timeo>)
      requires Linked() && k < |nodes| && t == nodes[k]
      requires prev == (if k == 0 then null else nodes[k - 1]) && IsDrop(ns, nodes, k)
      modifies this`head, this`nodes, repr`next
      ensures Linked() && nodes == ns
    {
      assert Leads(k);
      if prev == null {
        head := t.next;
      } else {
        Once(k - 1);
        prev.next := t.next;
      }
      nodes := ns;
      forall i: nat | i < |nodes|
        ensures Leads(i)
      {
        assert if i < k then old(Leads(i)) else old(Leads(i + 1));
      }
    }

    /** A new node belongs to the queue from here on, without being in the list yet. */
    ghost method Enlist(n: Timeo)
      requires Linked() && Spelled() && n !in repr
      modifies this`repr
      ensures Linked() && Spelled() && repr == old(repr) + {n} && n !in nodes
    {
      repr := repr + {n};
      forall i: nat | i < |nodes|
        ensures Leads(i)
      {
        assert old(Leads(i));
      }
    }

    lemma SpellsPut(n: Timeo, k: nat, ns: seq<Timeo>, es: seq<Entry>)
      requires Spelled() && n in repr
      requires IsPut(ns, nodes, k, n) && IsPut(es, q, k, Entry(n.time, n.h, n.arg))
      ensures Spells(ns, es)
    {
    }

    method PutFirst(n: Timeo, ghost es: seq<Entry>)
      requires Linked() && Spelled() && n !in repr
      requires IsPut(es, q, 0, Entry(n.time, n.h, n.arg))
      modifies this`head, this`nodes, this`repr, this`q, n`next
      ensures Linked() && Spelled() && repr == old(repr) + {n} && q == es
    {
      ghost var ns := Room(nodes, 0, n);
      Enlist(n);
      SpellsPut(n, 0, ns, es);
      LinkFirst(n, ns);
      q := es;
    }

    method PutBehind(t: Timeo, n: Timeo, ghost k: nat, ghost es: seq<Entry>)
      requires Linked() && Spelled() && n !in repr && k < |nodes| && t == nodes[k]
      requires IsPut(es, q, k + 1, Entry(n.time, n.h, n.arg))
      modifies this`nodes, this`repr, this`q, t`next, n`next
      ensures Linked() && Spelled() && repr == old(repr) + {n} && q == es
    {
      ghost var ns := Room(nodes, k + 1, n);
      Enlist(n);
      SpellsPut(n, k + 1, ns, es);
      LinkBehind(t, n, k, ns);
      q := es;
    }

    method DropNode(prev: Timeo?, t: Timeo, ghost k: nat, ghost es: seq<Entry>)
      requires Linked() && Spelled() && k < |nodes| && t == nodes[k]
      requires prev == (if k == 0 then null else nodes[k - 1]) && IsDrop(es, q, k)
      modifies this`head, this`nodes, this`q, repr`next
      ensures Linked() && Spelled() && q == es
    {
      ghost var ns := Gap(nodes, k);
      assert Spells(ns, es);
      Unlink(prev, t, k, ns);
      q := es;
    }

    method SetTime(n: Timeo, time: u32, ghost k: nat)
      requires Linked() && Spelled() && k < |nodes| && n == nodes[k]
      modifies n`time, this`q
      ensures Linked() && Spelled() && n.time == time
      ensures q == old(q)[k := old(q)[k].(time := time)]
    {
      Once(k);
      n.time := time;
      q := q[k := q[k].(time := time)];
    }

    /**
     * The search loop of tls_timeout_p: walks past the nodes that are due no later and
     * leaves in the new node the time that remains after node k.
     */
    method FindSlot(timeout: Timeo) returns (t: Timeo, ghost k: nat)
      requires Linked() && Spelled() && timeout !in repr
      requires head != null && head.time <= timeout.time
      modifies timeout`time
      ensures Linked() && Spelled() && k < |nodes| && t == nodes[k]
      ensures k + 1 < |nodes| ==> q[k + 1].time > timeout.time
      ensures old(timeout.time) == Total(q[..k + 1]) + timeout.time
    {
      t := head;
      k := 0;
      while true
        invariant Linked() && Spelled()
        invariant k < |nodes| && t == nodes[k] && t.time <= timeout.time
        invariant old(timeout.time) == Total(q[..k]) + timeout.time
        decreases |nodes| - k
      {
        TotalOfPrefix(q, k);
        assert Leads(k);
        timeout.time := timeout.time - t.time;
        if t.next == null || t.next.time > timeout.time {
          return;
        }
        t := t.next;
        k := k + 1;
      }
    }

    /** Takes time off the node at position k, or gives it some, if there is one. */
    method Shift(n: Timeo?, extra: int, ghost k: nat)
      requires Linked() && Spelled() && n == At(k)
      requires n != null ==> 0 <= n.time + extra < LIMIT
      modifies this`q, repr`time
      ensures Linked() && Spelled() && q == Shifted(old(q), k, extra)
    {
      if n != null {
        ghost var was := q;
        assert was[k].time == n.time;
        SetTime(n, n.time + extra, k);
        assert q == was[k := was[k].(time := was[k].time + extra)];
      }
    }

    /** The new node goes in front: it is due before the head. */
    method AddFirst(timeout: Timeo)
      requires Linked() && Spelled() && timeout !in repr
      requires head != null ==> head.time > timeout.time
      modifies this`head, this`nodes, this`repr, this`q, repr, timeout`next
      ensures Linked() && Spelled() && repr == old(repr) + {timeout}
      ensures q == Insert(old(q), timeout.time, timeout.h, timeout.arg)
    {
      ghost var goal := Insert(q, timeout.time, timeout.h, timeout.arg);
      InsertInFront(q, timeout.time, timeout.h, timeout.arg);
      Shift(head, 0 - timeout.time, 0);
      PutFirst(timeout, goal);
    }

    /** Takes the new node's time off the node behind t and links the new node between them. */
    method Attach(t: Timeo, timeout: Timeo, ghost k: nat, ghost es: seq<Entry>)
      requires Linked() && Spelled() && timeout !in repr
      requires k < |nodes| && t == nodes[k]
      requires k + 1 < |nodes| ==> q[k + 1].time > timeout.time
      requires IsPut(es, Shifted(q, k + 1, 0 - timeout.time), k + 1, Entry(timeout.time, timeout.h, timeout.arg))
      modifies this`nodes, this`repr, this`q, repr, timeout`next
      ensures Linked() && Spelled() && repr == old(repr) + {timeout} && q == es
    {
      assert Leads(k);
      Shift(t.next, 0 - timeout.time, k + 1);
      PutBehind(t, timeout, k, es);
    }

    /** The new node goes behind the last node that is due no later. */
    method AddLater(timeout: Timeo)
      requires Linked() && Spelled() && timeout !in repr
      requires head != null && head.time <= timeout.time
      modifies this`nodes, this`repr, this`q, repr, timeout
      ensures Linked() && Spelled() && repr == old(repr) + {timeout}
      ensures q == Insert(old(q), old(timeout.time), old(timeout.h), old(timeout.arg))
    {
      ghost var ms, goal := timeout.time, Insert(q, timeout.time, timeout.h, timeout.arg);
      var t, k := FindSlot(timeout);
      InsertInSlot(q, k, ms, timeout.time, timeout.h, timeout.arg);
      Attach(t, timeout, k, goal);
    }

    /** tls_timeout_p; mem tells whether the allocation succeeds. */
    method Timeout(msecs: u32, h: Handler, arg: Arg, mem: bool)
      requires Valid()
      modifies this, repr
      ensures Valid() && calls == old(calls)
      ensures q == if mem then Insert(old(q), msecs, h, arg) else old(q)
    {
      if !mem {
        return;
      }
      InsertKeepsTotal(q, msecs, h, arg);
      var timeout := new Timeo(msecs, h, arg);
      if head == null || head.time > msecs {
        AddFirst(timeout);
      } else {
        AddLater(timeout);
      }
    }

    /** tls_untimeout_p. */
    method Untimeout(h: Handler, arg: Arg)
      requires Valid()
      modifies this, repr
      ensures Valid() && calls == old(calls)
      ensures q == Remove(old(q), h, arg)
    {
      RemoveKeepsTotal(q, h, arg);
      if head == null {
        return;
      }
      var t: Timeo?, prev: Timeo? := head, null;
      ghost var k := 0;
      while t != null
        invariant 0 <= k <= |nodes| && t == At(k)
        invariant prev == if k == 0 then null else nodes[k - 1]
        invariant NoMatchBefore(q, k, h, arg)
        decreases |nodes| - k
      {
        if t.h == h && t.arg == arg {
          RemoveAt(q, k, h, arg);
          Detach(prev, t, k, Remove(q, h, arg));
          return;
        }
        assert Leads(k);
        prev, t := t, t.next;
        k := k + 1;
      }
      RemoveNothing(q, h, arg);
    }

    /** Unlinks node k and gives its time to the next one. */
    method Detach(prev: Timeo?, t: Timeo, ghost k: nat, ghost es: seq<Entry>)
      requires Valid() && k < |nodes| && t == nodes[k]
      requires prev == (if k == 0 then null else nodes[k - 1]) && IsDrop(es, Shifted(q, k + 1, q[k].time), k)
      modifies this`head, this`nodes, this`q, repr
      ensures Linked() && Spelled() && q == es
    {
      assert Leads(k);
      if t.next != null {
        TotalOfTwo(q, k);
      }
      Shift(t.next, t.time, k + 1);
      DropNode(prev, t, k, es);
    }

    /** The head is taken out before its handler is called. */
    method Expire()
      requires Linked() && Spelled() && head != null
      modifies this`head, this`nodes, this`q, this`calls, repr`next
      ensures Linked() && Spelled() && q == old(q)[1..]
      ensures calls == if old(q)[0].h == NULL then old(calls)
                       else old(calls) + [(old(q)[0].h, old(q)[0].arg)]
    {
      var tmp := head;
      assert Entry(tmp.time, tmp.h, tmp.arg) == q[0];
      DropNode(null, tmp, 0, q[1..]);
      if tmp.h != NULL {
        calls := calls + [(tmp.h, tmp.arg)];
      }
    }

    /** Takes the time spent waiting off the head. */
    method ChargeHead(spent: u32)
      requires Linked() && Spelled() && head != null
      modifies this`q, repr
      ensures Linked() && Spelled()
      ensures q == old(q)[0 := old(q)[0].(time := if spent < old(q)[0].time then old(q)[0].time - spent
                                                  else 0)]
    {
      if spent < head.time {
        SetTime(head, head.time - spent, 0);
      } else {
        SetTime(head, 0, 0);
      }
    }

    /** One pass of the loop in tls_timeouts_mbox_fetch_p; delivered ends it. */
    method Round(outcome: Outcome) returns (delivered: bool)
      requires Valid()
      requires head == null ==> outcome.Received?
      modifies this, repr
      ensures Valid() && q == Pass(Idle(old(q)), outcome).q
      ensures delivered <==> outcome.Received? && (old(q) == [] || old(q)[0].time > 0)
      ensures calls == if old(q) == [] || delivered || old(q)[0].h == NULL then old(calls)
                       else old(calls) + [(old(q)[0].h, old(q)[0].arg)]
    {
      PassKeepsTotal(q, outcome);
      var timeNeeded: u32;
      if head == null {
        timeNeeded := Fetch(0, outcome);
        return true;
      }
      if head.time > 0 {
        timeNeeded := Fetch(head.time, outcome);
      } else {
        timeNeeded := SYS_ARCH_TIMEOUT;
      }
      if timeNeeded == SYS_ARCH_TIMEOUT {
        Expire();
        delivered := false;
      } else {
        ChargeHead(timeNeeded);
        delivered := true;
      }
    }
  }

  lemma PassKeepsTotal(q: seq<Entry>, outcome: Outcome)
    ensures Total(Pass(Idle(q), outcome).q) <= Total(q)
  {
    var r := Pass(Idle(q), outcome).q;
    if |r| == |q| > 0 {
      assert r[1..] == q[1..];
    }
  }

  lemma {:induction false} TotalOfPrefix(q: seq<Entry>, k: nat)
    requires k < |q|
    ensures Total(q[..k + 1]) == Total(q[..k]) + q[k].time
  {
    if k == 0 {
      assert q[..1][1..] == [];
    } else {
      TotalOfPrefix(q[1..], k - 1);
      assert q[..k + 1][1..] == q[1..][..k] && q[..k][1..] == q[1..][..k - 1];
    }
  }

  /** The entry at position k, if there is one, with some of its time taken or more given. */
  ghost function Shifted(q: seq<Entry>, k: nat, extra: int): seq<Entry>
    requires k < |q| ==> q[k].time + extra >= 0
  {
    if k < |q| then q[k := q[k].(time := q[k].time + extra)] else q
  }

  lemma InsertInFront(q: seq<Entry>, ms: nat, h: Handler, arg: Arg)
    requires q != [] ==> q[0].time > ms
    ensures IsPut(Insert(q, ms, h, arg), Shifted(q, 0, 0 - ms), 0, Entry(ms, h, arg))
  {
  }

  /** The place the search loop found is the place insertion puts the new entry. */
  lemma {:induction false} InsertInSlot(q: seq<Entry>, k: nat, ms: nat, left: nat, h: Handler, arg: Arg)
    requires k < |q| && ms == Total(q[..k + 1]) + left
    requires k + 1 < |q| ==> q[k + 1].time > left
    ensures IsPut(Insert(q, ms, h, arg), Shifted(q, k + 1, 0 - left), k + 1, Entry(left, h, arg))
  {
    assert q[..k + 1][1..] == q[1..][..k];
    var rest, e := ms - q[0].time, Entry(left, h, arg);
    assert Insert(q, ms, h, arg) == [q[0]] + Insert(q[1..], rest, h, arg);
    if k == 0 {
      assert Total(q[1..][..0]) == 0;
      InsertInFront(q[1..], rest, h, arg);
    } else {
      InsertInSlot(q[1..], k - 1, rest, left, h, arg);
    }
    assert Shifted(q, k + 1, 0 - left)[1..] == Shifted(q[1..], k, 0 - left);
  }

  ghost predicate NoMatchBefore(q: seq<Entry>, k: nat, h: Handler, arg: Arg)
    requires k <= |q|
  {
    forall i | 0 <= i < k :: q[i].h != h || q[i].arg != arg
  }

  /** Removing the first match gives its difference to the entry behind it. */
  lemma {:induction false} RemoveAt(q: seq<Entry>, k: nat, h: Handler, arg: Arg)
    requires k < |q| && NoMatchBefore(q, k, h, arg) && q[k].h == h && q[k].arg == arg
    ensures IsDrop(Remove(q, h, arg), Shifted(q, k + 1, q[k].time), k)
  {
    if k > 0 {
      RemoveAt(q[1..], k - 1, h, arg);
    }
    assert Shifted(q, k + 1, q[k].time)[1..] == Shifted(q[1..], k, q[k].time);
  }

  lemma {:induction false} RemoveNothing(q: seq<Entry>, h: Handler, arg: Arg)
    requires NoMatchBefore(q, |q|, h, arg)
    ensures Remove(q, h, arg) == q
  {
    if q != [] {
      RemoveNothing(q[1..], h, arg);
      assert q == [q[0]] + q[1..];
    }
  }

  /** Two neighbouring differences together stay within the total. */
  lemma {:induction false} TotalOfTwo(q: seq<Entry>, k: nat)
    requires k + 1 < |q|
    ensures q[k].time + q[k + 1].time <= Total(q)
  {
    if k > 0 {
      TotalOfTwo(q[1..], k - 1);
    } else {
      assert Total(q[1..]) == q[1].time + Total(q[1..][1..]);
    }
  }
}
