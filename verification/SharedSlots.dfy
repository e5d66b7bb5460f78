/**
 * Several callers of tls_wl_task_callback_static that share the message ids. Each caller
 * takes the steps of a producer; nothing keeps two of them out of the same slot.
 */
module SharedSlots {
  import One = StaticMessages

  /** A caller is inside at most one call. */
  datatype Caller = Away | Within(id: One.Id, p: One.Producer)

  datatype State = State(
    slots: seq<One.Slot>,
    callers: seq<Caller>,
    consumer: One.Consumer,
    mailbox: seq<One.Id>,
    posted: seq<(One.Id, One.Pair)>,
    ran: seq<(One.Id, One.Pair)>)
  {
    ghost predicate Shaped() {
      |slots| == One.IDS && forall c | 0 <= c < |callers| && callers[c].Within? :: !callers[c].p.Outside?
    }
  }

  datatype Event =
    | Call(c: nat, id: One.Id, pair: One.Pair, block: bool)
    | Advance(c: nat, full: bool)
    | Task

  ghost predicate Start(s: State) {
    && s.Shaped() && s.consumer == One.Waiting && s.mailbox == [] && s.posted == [] && s.ran == []
    && (forall i: One.Id :: s.slots[i].cnt == 0)
    && (forall c | 0 <= c < |s.callers| :: s.callers[c].Away?)
  }

  /** The slots, the mailbox and the task thread, with one producer beside them. */
  function Beside(s: State, id: One.Id, p: One.Producer): One.State {
    One.State(s.slots, seq(One.IDS, i => One.Outside)[id := p], s.consumer, s.mailbox, s.posted, s.ran)
  }

  function Shared(s: State, r: One.State): State {
    s.(slots := r.slots, consumer := r.consumer, mailbox := r.mailbox, posted := r.posted, ran := r.ran)
  }

  function Placed(id: One.Id, p: One.Producer): Caller {
    if p.Outside? then Away else Within(id, p)
  }

  function Step(s: State, ev: Event): (r: State)
    requires s.Shaped()
    ensures r.Shaped() && |r.callers| == |s.callers|
  {
    match ev
    case Call(c, id, pair, block) =>
      if c < |s.callers| && s.callers[c].Away? && s.slots[id].cnt == 0
      then s.(callers := s.callers[c := Within(id, One.Checked(pair, block))]) else s
    case Advance(c, full) =>
      if c < |s.callers| && s.callers[c].Within? then
        var id := s.callers[c].id;
        var r := One.Produce(Beside(s, id, s.callers[c].p), id, full);
        Shared(s, r).(callers := s.callers[c := Placed(id, r.producers[id])])
      else s
    case Task => Shared(s, One.Consume(Beside(s, 0, One.Outside)))
  }

  function Run(s: State, events: seq<Event>): (r: State)
    requires s.Shaped()
    ensures r.Shaped()
    decreases |events|
  {
    if events == [] then s else Run(Step(s, events[0]), events[1..])
  }

  predicate IsWithin(s: State, id: One.Id) {
    exists c | 0 <= c < |s.callers| :: s.callers[c].Within? && s.callers[c].id == id
  }

  /** The step lets a caller in while another one is inside a call for the same id. */
  predicate Crowds(s: State, ev: Event)
    requires s.Shaped()
  {
    && ev.Call? && ev.c < |s.callers| && s.callers[ev.c].Away? && s.slots[ev.id].cnt == 0
    && IsWithin(s, ev.id)
  }

  /** Along a run the calls for one id exclude each other. */
  predicate Apart(s: State, events: seq<Event>)
    requires s.Shaped()
    decreases |events|
  {
    events == [] || (!Crowds(s, events[0]) && Apart(Step(s, events[0]), events[1..]))
  }

  /** Two updates of the count overlap, or a post is given up. */
  predicate Disturbs(s: State, ev: Event, id: One.Id) {
    match ev
    case Call(_, _, _, _) => false
    case Advance(c, full) =>
      && c < |s.callers| && s.callers[c].Within? && s.callers[c].id == id
      && (var p := s.callers[c].p;
          || (p.Counting? && One.Lowering(s.consumer, id))
          || (full && p.WroteBoth? && p.block && p.failed + 1 >= One.ATTEMPTS))
    case Task =>
      && s.consumer.ReadBoth? && s.consumer.id == id
      && exists c | 0 <= c < |s.callers| :: s.callers[c].Within? && s.callers[c].id == id && s.callers[c].p.LoadedCount?
  }

  predicate Undisturbed(s: State, events: seq<Event>, id: One.Id)
    requires s.Shaped()
    decreases |events|
  {
    events == [] || (!Disturbs(s, events[0], id) && Undisturbed(Step(s, events[0]), events[1..], id))
  }

  /** No two callers are inside for the same id. */
  ghost predicate Alone(s: State) {
    forall c, d | 0 <= c < d < |s.callers| && s.callers[c].Within? && s.callers[d].Within? ::
      s.callers[c].id != s.callers[d].id
  }

  /** The producer inside for this id, if there is one. */
  function Inside(callers: seq<Caller>, id: One.Id): One.Producer {
    if callers == [] then One.Outside
    else if callers[0].Within? && callers[0].id == id then callers[0].p
    else Inside(callers[1..], id)
  }

  /** The state with one producer for each id. */
  function Merged(s: State): One.State {
    One.State(s.slots, seq(One.IDS, i requires 0 <= i < One.IDS => Inside(s.callers, i)),
              s.consumer, s.mailbox, s.posted, s.ran)
  }

  /** The step of that state, if it takes one. */
  function Matching(s: State, ev: Event): seq<One.Event>
    requires s.Shaped()
  {
    match ev
    case Call(c, id, pair, block) =>
      if c < |s.callers| && s.callers[c].Away? && s.slots[id].cnt == 0 then [One.Call(id, pair, block)] else []
    case Advance(c, full) =>
      if c < |s.callers| && s.callers[c].Within? then [One.Advance(s.callers[c].id, full)] else []
    case Task => [One.Task]
  }

  function AllMatching(s: State, events: seq<Event>): seq<One.Event>
    requires s.Shaped()
    decreases |events|
  {
    if events == [] then []
    else Matching(s, events[0]) + AllMatching(Step(s, events[0]), events[1..])
  }

  lemma {:induction false} InsideIs(callers: seq<Caller>, c: nat, id: One.Id)
    requires c < |callers| && callers[c].Within? && callers[c].id == id
    requires forall d | 0 <= d < |callers| && d != c && callers[d].Within? :: callers[d].id != id
    ensures Inside(callers, id) == callers[c].p
  {
    if c > 0 {
      InsideIs(callers[1..], c - 1, id);
    }
  }

  lemma {:induction false} InsideNone(callers: seq<Caller>, id: One.Id)
    requires forall d | 0 <= d < |callers| && callers[d].Within? :: callers[d].id != id
    ensures Inside(callers, id) == One.Outside
  {
    if callers != [] {
      InsideNone(callers[1..], id);
    }
  }

  lemma {:induction false} InsideOthers(callers: seq<Caller>, c: nat, x: Caller, id: One.Id)
    requires c < |callers|
    requires callers[c].Within? ==> callers[c].id != id
    requires x.Within? ==> x.id != id
    ensures Inside(callers[c := x], id) == Inside(callers, id)
  {
    if c > 0 {
      assert callers[c := x][1..] == callers[1..][c - 1 := x];
      InsideOthers(callers[1..], c - 1, x, id);
    } else {
      assert callers[c := x][1..] == callers[1..];
    }
  }

  /** A producer's step looks at no other producer, and leaves all others as they are. */
  lemma ProduceIsLocal(s: One.State, t: One.State, id: One.Id, full: bool)
    requires s.Shaped() && t.Shaped() && s == t.(producers := s.producers) && s.producers[id] == t.producers[id]
    ensures var r, q := One.Produce(s, id, full), One.Produce(t, id, full);
            r == q.(producers := s.producers[id := q.producers[id]])
  {
  }

  /** What caller c does next, seen in the merged producers. */
  lemma MergedAfter(s: State, c: nat, id: One.Id, p: One.Producer)
    requires Alone(s) && c < |s.callers|
    requires s.callers[c].Within? ==> s.callers[c].id == id
    requires s.callers[c].Away? ==> !IsWithin(s, id)
    ensures var callers := s.callers[c := Placed(id, p)];
            && Alone(s.(callers := callers))
            && Merged(s.(callers := callers)).producers == Merged(s).producers[id := p]
  {
    var callers := s.callers[c := Placed(id, p)];
    forall i: One.Id
      ensures Inside(callers, i) == if i == id then p else Inside(s.callers, i)
    {
      if i != id {
        InsideOthers(s.callers, c, Placed(id, p), i);
      } else if p.Outside? {
        InsideNone(callers, id);
      } else {
        InsideIs(callers, c, id);
      }
    }
  }

  lemma StepMatches(s: State, ev: Event)
    requires s.Shaped() && Alone(s) && !Crowds(s, ev)
    ensures Alone(Step(s, ev))
    ensures Merged(Step(s, ev)) == One.Run(Merged(s), Matching(s, ev))
  {
    var es := Matching(s, ev);
    if es != [] {
      assert es[1..] == [];
      assert One.Run(Merged(s), es) == One.Run(One.Step(Merged(s), es[0]), []);
    }
    match ev
    case Call(c, id, pair, block) =>
      if es != [] {
        MergedAfter(s, c, id, One.Checked(pair, block));
        InsideNone(s.callers, id);
      }
    case Advance(c, full) =>
      if es != [] {
        var id, p := s.callers[c].id, s.callers[c].p;
        InsideIs(s.callers, c, id);
        ProduceIsLocal(Merged(s), Beside(s, id, p), id, full);
        MergedAfter(s, c, id, One.Produce(Beside(s, id, p), id, full).producers[id]);
      }
    case Task =>
  }

  lemma {:induction false} RunMatches(s: State, events: seq<Event>)
    requires s.Shaped() && Alone(s) && Apart(s, events)
    ensures Alone(Run(s, events))
    ensures Merged(Run(s, events)) == One.Run(Merged(s), AllMatching(s, events))
    decreases |events|
  {
    if events != [] {
      var next := Step(s, events[0]);
      StepMatches(s, events[0]);
      RunMatches(next, events[1..]);
      One.RunConcat(Merged(s), Matching(s, events[0]), AllMatching(next, events[1..]));
    }
  }

  lemma {:induction false} OneUndisturbedConcat(s: One.State, a: seq<One.Event>, b: seq<One.Event>, id: One.Id)
    requires s.Shaped()
    ensures One.Undisturbed(s, a + b, id) <==> One.Undisturbed(s, a, id) && One.Undisturbed(One.Run(s, a), b, id)
    decreases |a|
  {
    if a == [] {
      assert a + b == b;
    } else {
      assert (a + b)[0] == a[0] && (a + b)[1..] == a[1..] + b;
      OneUndisturbedConcat(One.Step(s, a[0]), a[1..], b, id);
    }
  }

  lemma StepDisturbsAlike(s: State, ev: Event, id: One.Id)
    requires s.Shaped() && Alone(s) && !Crowds(s, ev)
    ensures Disturbs(s, ev, id) <==> !One.Undisturbed(Merged(s), Matching(s, ev), id)
  {
    var es := Matching(s, ev);
    if es != [] {
      assert es[1..] == [];
      assert One.Undisturbed(One.Step(Merged(s), es[0]), [], id);
    }
    match ev
    case Call(_, _, _, _) =>
    case Advance(c, full) =>
      if es != [] {
        InsideIs(s.callers, c, s.callers[c].id);
      }
    case Task => TaskDisturbsAlike(s, id);
  }

  lemma TaskDisturbsAlike(s: State, id: One.Id)
    requires s.Shaped() && Alone(s)
    ensures Disturbs(s, Task, id) <==> One.Overlaps(Merged(s), One.Task, id)
  {
    if IsWithin(s, id) {
      var c :| 0 <= c < |s.callers| && s.callers[c].Within? && s.callers[c].id == id;
      InsideIs(s.callers, c, id);
    } else {
      InsideNone(s.callers, id);
    }
  }

  lemma {:induction false} RunDisturbsAlike(s: State, events: seq<Event>, id: One.Id)
    requires s.Shaped() && Alone(s) && Apart(s, events)
    ensures Undisturbed(s, events, id) <==> One.Undisturbed(Merged(s), AllMatching(s, events), id)
    decreases |events|
  {
    if events != [] {
      var next := Step(s, events[0]);
      StepMatches(s, events[0]);
      StepDisturbsAlike(s, events[0], id);
      RunDisturbsAlike(next, events[1..], id);
      OneUndisturbedConcat(Merged(s), Matching(s, events[0]), AllMatching(next, events[1..]), id);
    }
  }

  lemma StartMerges(s: State)
    requires Start(s)
    ensures Alone(s) && One.Start(Merged(s))
  {
    forall i: One.Id
      ensures Inside(s.callers, i) == One.Outside
    {
      InsideNone(s.callers, i);
    }
  }

  /**
   * With any number of callers, in every run in which the calls for one id exclude each
   * other: the task runs exactly the pairs that were posted, in the order of posting, and a
   * slot at rest lets the next call in exactly if nothing has disturbed it.
   */
  lemma RunsExactlyWhatWasPosted(s: State, events: seq<Event>)
    requires Start(s) && Apart(s, events)
    ensures var r := Run(s, events);
            && r.ran <= r.posted
            && (r.mailbox == [] && r.consumer == One.Waiting ==> r.ran == r.posted)
            && (forall id: One.Id :: !IsWithin(r, id) && !One.InFlight(Merged(r), id) ==>
                  (r.slots[id].cnt == 0 <==> Undisturbed(s, events, id)))
  {
    StartMerges(s);
    RunMatches(s, events);
    One.RunsExactlyWhatWasPosted(Merged(s), AllMatching(s, events));
    var r := Run(s, events);
    forall id: One.Id | !IsWithin(r, id) && !One.InFlight(Merged(r), id)
      ensures r.slots[id].cnt == 0 <==> Undisturbed(s, events, id)
    {
      InsideNone(r.callers, id);
      assert Merged(r).producers[id] == One.Outside;
      RunDisturbsAlike(s, events, id);
    }
  }

  /** At most one copy of a message is then in flight, and each slot is right or wedged. */
  lemma InvariantHolds(s: State, events: seq<Event>, id: One.Id)
    requires Start(s) && Apart(s, events)
    ensures One.Inv(Merged(Run(s, events)))
    ensures One.SlotOk(Merged(Run(s, events)), id) <==> Undisturbed(s, events, id)
  {
    StartMerges(s);
    One.StartHolds(Merged(s));
    RunMatches(s, events);
    One.RunHolds(Merged(s), AllMatching(s, events));
    One.CountIsRightIff(Merged(s), AllMatching(s, events), id);
    RunDisturbsAlike(s, events, id);
  }

  lemma {:induction false} RunConcat(s: State, a: seq<Event>, b: seq<Event>)
    requires s.Shaped()
    ensures Run(s, a + b) == Run(Run(s, a), b)
    decreases |a|
  {
    if a == [] {
      assert a + b == b;
    } else {
      assert (a + b)[0] == a[0] && (a + b)[1..] == a[1..] + b;
      RunConcat(Step(s, a[0]), a[1..], b);
    }
  }

  lemma {:induction false} UndisturbedConcat(s: State, a: seq<Event>, b: seq<Event>, id: One.Id)
    requires s.Shaped()
    ensures Undisturbed(s, a + b, id) <==> Undisturbed(s, a, id) && Undisturbed(Run(s, a), b, id)
    decreases |a|
  {
    if a == [] {
      assert a + b == b;
    } else {
      assert (a + b)[0] == a[0] && (a + b)[1..] == a[1..] + b;
      UndisturbedConcat(Step(s, a[0]), a[1..], b, id);
    }
  }

  /** While the task thread waits, calls and posts that find room disturb nothing. */
  lemma {:induction false} CallersDisturbNothing(s: State, events: seq<Event>, id: One.Id)
    requires s.Shaped() && s.consumer == One.Waiting
    requires forall e | e in events :: !e.Task? && (e.Advance? ==> !e.full)
    ensures Undisturbed(s, events, id) && Run(s, events).consumer == One.Waiting
    decreases |events|
  {
    if events != [] {
      assert events[0] in events;
      assert forall e | e in events[1..] :: e in events;
      CallersDisturbNothing(Step(s, events[0]), events[1..], id);
    }
  }

  /** While all callers are away, the task thread disturbs nothing. */
  lemma {:induction false} TaskDisturbsNothing(s: State, events: seq<Event>, id: One.Id)
    requires s.Shaped() && forall c | 0 <= c < |s.callers| :: s.callers[c].Away?
    requires forall e | e in events :: e.Task?
    ensures Undisturbed(s, events, id)
    decreases |events|
  {
    if events != [] {
      assert events[0] in events;
      assert forall e | e in events[1..] :: e in events;
      TaskDisturbsNothing(Step(s, events[0]), events[1..], id);
    }
  }

  function Tasks(n: nat): (events: seq<Event>)
    ensures |events| == n && forall e | e in events :: e == Task
  {
    if n == 0 then [] else [Task] + Tasks(n - 1)
  }

  lemma ThreeSteps(s: State, a: Event, b: Event, c: Event)
    requires s.Shaped()
    ensures Run(s, [a, b, c]) == Step(Step(Step(s, a), b), c)
  {
    assert [a, b, c][1..] == [b, c] && [b, c][1..] == [c] && [c][1..] == [];
    var x := Step(s, a);
    var y := Step(x, b);
    assert Run(x, [b, c]) == Run(y, [c]) == Run(Step(y, c), []);
  }

  lemma StepRoutine(s: State, c: nat, id: One.Id, pair: One.Pair)
    requires s.Shaped() && c < |s.callers| && s.callers[c] == Within(id, One.Checked(pair, false))
    ensures Step(s, Advance(c, false))
         == s.(slots := s.slots[id := s.slots[id].(routine := pair.routine)],
               callers := s.callers[c := Within(id, One.WroteRoutine(pair, false))])
  {
  }

  lemma StepCtx(s: State, c: nat, id: One.Id, pair: One.Pair)
    requires s.Shaped() && c < |s.callers| && s.callers[c] == Within(id, One.WroteRoutine(pair, false))
    ensures Step(s, Advance(c, false))
         == s.(slots := s.slots[id := s.slots[id].(ctx := pair.ctx)],
               callers := s.callers[c := Within(id, One.WroteBoth(pair, false, 0))])
  {
  }

  lemma StepPost(s: State, c: nat, id: One.Id, pair: One.Pair)
    requires s.Shaped() && c < |s.callers| && s.callers[c] == Within(id, One.WroteBoth(pair, false, 0))
    ensures Step(s, Advance(c, false))
         == s.(callers := s.callers[c := Within(id, One.Counting)],
               mailbox := s.mailbox + [id], posted := s.posted + [(id, pair)])
  {
  }

  lemma StepLoad(s: State, c: nat, id: One.Id)
    requires s.Shaped() && c < |s.callers| && s.callers[c] == Within(id, One.Counting)
    ensures Step(s, Advance(c, false)) == s.(callers := s.callers[c := Within(id, One.LoadedCount(s.slots[id].cnt))])
  {
  }

  lemma StepStore(s: State, c: nat, id: One.Id)
    requires s.Shaped() && c < |s.callers| && s.callers[c] == Within(id, One.LoadedCount(0))
    ensures Step(s, Advance(c, false))
         == s.(slots := s.slots[id := s.slots[id].(cnt := 1)], callers := s.callers[c := Away])
  {
  }

  lemma Overwrite<T>(s: seq<T>, i: nat, x: T, y: T)
    requires i < |s|
    ensures s[i := x][i := y] == s[i := y]
  {
  }

  /** A caller past the test writes its pair and posts it, whoever else is inside. */
  lemma WritesAndPosts(s: State, c: nat, id: One.Id, pair: One.Pair)
    requires s.Shaped() && c < |s.callers| && s.callers[c] == Within(id, One.Checked(pair, false))
    ensures Run(s, [Advance(c, false), Advance(c, false), Advance(c, false)])
         == s.(slots := s.slots[id := One.Slot(pair.routine, pair.ctx, s.slots[id].cnt)],
               callers := s.callers[c := Within(id, One.Counting)],
               mailbox := s.mailbox + [id], posted := s.posted + [(id, pair)])
  {
    var go, slot := Advance(c, false), s.slots[id];
    ThreeSteps(s, go, go, go);
    StepRoutine(s, c, id, pair);
    var x := Step(s, go);
    StepCtx(x, c, id, pair);
    var y := Step(x, go);
    StepPost(y, c, id, pair);
    Overwrite(s.slots, id, slot.(routine := pair.routine), One.Slot(pair.routine, pair.ctx, slot.cnt));
    Overwrite(s.callers, c, x.callers[c], y.callers[c]);
    Overwrite(s.callers, c, y.callers[c], Within(id, One.Counting));
  }

  lemma TakesThree(s: State, id: One.Id)
    requires s.Shaped() && s.consumer == One.Waiting && s.mailbox != [] && s.mailbox[0] == id
    ensures Run(s, [Task, Task, Task])
         == s.(mailbox := s.mailbox[1..],
               consumer := One.ReadBoth(id, One.Pair(s.slots[id].routine, s.slots[id].ctx)))
  {
    ThreeSteps(s, Task, Task, Task);
  }

  lemma RunsThree(s: State, id: One.Id, pair: One.Pair)
    requires s.Shaped() && s.consumer == One.ReadBoth(id, pair)
    ensures Run(s, [Task, Task, Task])
         == s.(slots := s.slots[id := s.slots[id].(cnt := (s.slots[id].cnt + One.BYTE - 1) % One.BYTE)],
               consumer := One.Waiting, ran := s.ran + [(id, pair)])
  {
    ThreeSteps(s, Task, Task, Task);
  }

  /** The task thread takes a message, runs what its slot holds by then, and lowers the count. */
  lemma TakesAndRuns(s: State, id: One.Id)
    requires s.Shaped() && s.consumer == One.Waiting && s.mailbox != [] && s.mailbox[0] == id
    ensures var slot := s.slots[id];
            Run(s, Tasks(6))
            == s.(slots := s.slots[id := slot.(cnt := (slot.cnt + One.BYTE - 1) % One.BYTE)],
                  mailbox := s.mailbox[1..], ran := s.ran + [(id, One.Pair(slot.routine, slot.ctx))])
  {
    SixTasks();
    RunConcat(s, [Task, Task, Task], [Task, Task, Task]);
    TakesThree(s, id);
    RunsThree(Run(s, [Task, Task, Task]), id, One.Pair(s.slots[id].routine, s.slots[id].ctx));
  }

  lemma SixTasks()
    ensures Tasks(6) == [Task, Task, Task] + [Task, Task, Task]
  {
    var l := [Task, Task, Task] + [Task, Task, Task];
    forall i | 0 <= i < 6
      ensures Tasks(6)[i] == l[i]
    {
      assert Tasks(6)[i] in Tasks(6);
    }
  }

  /**
   * Without that exclusion the claims fail, though no raise overlaps a lowering and nothing
   * is given up: two callers both pass the test, the second pair is written over the first,
   * and both load the count before either stores it. The second pair runs twice, the first
   * never, and the count ends at 255, so that every later call is turned away.
   */
  lemma TwoCallersInOneSlot(id: One.Id, first: One.Pair, second: One.Pair) returns (s: State, events: seq<Event>)
    ensures Start(s) && Undisturbed(s, events, id)
    ensures var r := Run(s, events);
            && r.posted == [(id, first), (id, second)] && r.ran == [(id, second), (id, second)]
            && r.mailbox == [] && r.consumer == One.Waiting && !IsWithin(r, id)
            && r.slots[id].cnt == One.BYTE - 1
            && forall c, pair, block :: Step(r, Call(c, id, pair, block)) == r
  {
    s := State(seq(One.IDS, i => One.Slot(0, 0, 0)), [Away, Away], One.Waiting, [], [], []);
    events := Posts(id, first, second) + Counts() + (Tasks(6) + Tasks(6));
    TwoCallersRun(s, id, first, second);
    TwoCallersDisturbNothing(s, id, first, second);
  }

  lemma TwoCallersRun(s: State, id: One.Id, first: One.Pair, second: One.Pair)
    requires s.Shaped() && s.callers == [Away, Away] && s.slots[id].cnt == 0
    requires s.consumer == One.Waiting && s.mailbox == []
    ensures Run(s, Posts(id, first, second) + Counts() + (Tasks(6) + Tasks(6)))
         == s.(slots := s.slots[id := One.Slot(second.routine, second.ctx, One.BYTE - 1)],
               posted := s.posted + [(id, first)] + [(id, second)],
               ran := s.ran + [(id, second)] + [(id, second)])
  {
    var calls := Posts(id, first, second) + Counts();
    RunConcat(s, calls, Tasks(6) + Tasks(6));
    BothCall(s, id, first, second);
    var slot := One.Slot(second.routine, second.ctx, 1);
    var counted := s.(slots := s.slots[id := slot], mailbox := [id, id],
                      posted := s.posted + [(id, first)] + [(id, second)]);
    assert Run(s, calls) == counted;
    BothRun(counted, id, second);
    Overwrite(s.slots, id, slot, One.Slot(second.routine, second.ctx, One.BYTE - 1));
  }

  lemma TwoCallersDisturbNothing(s: State, id: One.Id, first: One.Pair, second: One.Pair)
    requires s.Shaped() && s.callers == [Away, Away] && s.slots[id].cnt == 0 && s.consumer == One.Waiting
    ensures Undisturbed(s, Posts(id, first, second) + Counts() + (Tasks(6) + Tasks(6)), id)
  {
    var calls := Posts(id, first, second) + Counts();
    BothCall(s, id, first, second);
    UndisturbedConcat(s, calls, Tasks(6) + Tasks(6), id);
    CallersDisturbNothing(s, calls, id);
    TaskDisturbsNothing(Run(s, calls), Tasks(6) + Tasks(6), id);
  }

  lemma BothCall(s: State, id: One.Id, first: One.Pair, second: One.Pair)
    requires s.Shaped() && s.callers == [Away, Away] && s.slots[id].cnt == 0
    ensures Run(s, Posts(id, first, second) + Counts())
         == s.(slots := s.slots[id := One.Slot(second.routine, second.ctx, 1)],
               mailbox := s.mailbox + [id] + [id],
               posted := s.posted + [(id, first)] + [(id, second)])
  {
    RunConcat(s, Posts(id, first, second), Counts());
    BothPost(s, id, first, second);
    BothCount(Run(s, Posts(id, first, second)), id);
    Overwrite(s.slots, id, One.Slot(second.routine, second.ctx, 0), One.Slot(second.routine, second.ctx, 1));
  }

  lemma BothRun(s: State, id: One.Id, pair: One.Pair)
    requires s.Shaped() && s.callers == [Away, Away] && s.consumer == One.Waiting && s.mailbox == [id, id]
    requires s.slots[id] == One.Slot(pair.routine, pair.ctx, 1)
    ensures Run(s, Tasks(6) + Tasks(6))
         == s.(slots := s.slots[id := One.Slot(pair.routine, pair.ctx, One.BYTE - 1)],
               mailbox := [], ran := s.ran + [(id, pair)] + [(id, pair)])
  {
    var slot0 := One.Slot(pair.routine, pair.ctx, 0);
    RunConcat(s, Tasks(6), Tasks(6));
    TakesAndRuns(s, id);
    var once := s.(slots := s.slots[id := slot0], mailbox := [id], ran := s.ran + [(id, pair)]);
    assert s.mailbox[1..] == [id];
    assert (1 + One.BYTE - 1) % One.BYTE == 0;
    assert s.slots[id].(cnt := 0) == slot0;
    assert Run(s, Tasks(6)) == once;
    TakesAndRuns(once, id);
    assert once.mailbox[1..] == [];
    Overwrite(s.slots, id, One.Slot(pair.routine, pair.ctx, 0), One.Slot(pair.routine, pair.ctx, One.BYTE - 1));
  }

  function Counts(): seq<Event> {
    [Advance(0, false), Advance(1, false)] + [Advance(0, false), Advance(1, false)]
  }

  function Posts(id: One.Id, first: One.Pair, second: One.Pair): seq<Event> {
    [Call(0, id, first, false), Call(1, id, second, false)]
    + [Advance(0, false), Advance(0, false), Advance(0, false)]
    + [Advance(1, false), Advance(1, false), Advance(1, false)]
  }

  lemma TwoSteps(s: State, a: Event, b: Event)
    requires s.Shaped()
    ensures Run(s, [a, b]) == Step(Step(s, a), b)
  {
    assert [a, b][1..] == [b] && [b][1..] == [];
    assert Run(Step(s, a), [b]) == Run(Step(Step(s, a), b), []);
  }

  lemma BothPost(s: State, id: One.Id, first: One.Pair, second: One.Pair)
    requires s.Shaped() && s.callers == [Away, Away] && s.slots[id].cnt == 0
    ensures Run(s, Posts(id, first, second))
         == s.(slots := s.slots[id := One.Slot(second.routine, second.ctx, 0)],
               callers := [Within(id, One.Counting), Within(id, One.Counting)],
               mailbox := s.mailbox + [id] + [id],
               posted := s.posted + [(id, first)] + [(id, second)])
  {
    var in0, in1 := Call(0, id, first, false), Call(1, id, second, false);
    var post0 := [Advance(0, false), Advance(0, false), Advance(0, false)];
    var post1 := [Advance(1, false), Advance(1, false), Advance(1, false)];
    RunConcat(s, [in0, in1] + post0, post1);
    RunConcat(s, [in0, in1], post0);
    TwoSteps(s, in0, in1);
    var both := Run(s, [in0, in1]);
    BothInside(s, id, first, second);
    WritesAndPosts(both, 0, id, first);
    var mid := Run(both, post0);
    assert mid.callers == [Within(id, One.Counting), Within(id, One.Checked(second, false))];
    WritesAndPosts(mid, 1, id, second);
    var slot0, slot1 := One.Slot(first.routine, first.ctx, 0), One.Slot(second.routine, second.ctx, 0);
    Overwrite(s.slots, id, slot0, slot1);
    assert Run(mid, post1).callers == [Within(id, One.Counting), Within(id, One.Counting)];
  }

  lemma BothInside(s: State, id: One.Id, first: One.Pair, second: One.Pair)
    requires s.Shaped() && s.callers == [Away, Away] && s.slots[id].cnt == 0
    ensures Step(Step(s, Call(0, id, first, false)), Call(1, id, second, false))
         == s.(callers := [Within(id, One.Checked(first, false)), Within(id, One.Checked(second, false))])
  {
  }

  lemma BothCount(s: State, id: One.Id)
    requires s.Shaped() && s.callers == [Within(id, One.Counting), Within(id, One.Counting)]
    requires s.slots[id].cnt == 0
    ensures Run(s, Counts()) == s.(slots := s.slots[id := s.slots[id].(cnt := 1)], callers := [Away, Away])
  {
    var a, b := Advance(0, false), Advance(1, false);
    RunConcat(s, [a, b], [a, b]);
    TwoSteps(s, a, b);
    StepLoad(s, 0, id);
    StepLoad(Step(s, a), 1, id);
    var y := Run(s, [a, b]);
    assert y.callers == [Within(id, One.LoadedCount(0)), Within(id, One.LoadedCount(0))];
    TwoSteps(y, a, b);
    StepStore(y, 0, id);
    var z := Step(y, a);
    assert z.callers == [Away, Within(id, One.LoadedCount(0))];
    StepStore(z, 1, id);
    assert Step(z, b).callers == [Away, Away];
    Overwrite(s.slots, id, s.slots[id].(cnt := 1), s.slots[id].(cnt := 1));
  }
}
