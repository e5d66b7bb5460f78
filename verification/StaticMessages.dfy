/**
 * The reusable static messages of wm_wl_task.c: for each message id one producer that
 * calls tls_wl_task_callback_static, and one task thread, interleaved in every way.
 * cnt is loaded and stored in separate steps, and posting is one attempt on the mailbox
 * at a time; the blocking form makes up to ten.
 */
module StaticMessages {

  const IDS: nat := 8
  const BYTE: nat := 256
  const ATTEMPTS: nat := 10

  type Id = i: nat | i < IDS

  datatype Pair = Pair(routine: nat, ctx: nat)

  /** A slot of wl_msg. */
  datatype Slot = Slot(routine: nat, ctx: nat, cnt: nat)

  /** Where a producer stands in the call. */
  datatype Producer =
    | Outside
    | Checked(pair: Pair, block: bool)
    | WroteRoutine(pair: Pair, block: bool)
    | WroteBoth(pair: Pair, block: bool, failed: nat)
    | Counting
    | LoadedCount(value: nat)

  /** Where the task thread stands in its loop. */
  datatype Consumer =
    | Waiting
    | Got(id: Id)
    | ReadRoutine(id: Id, routine: nat)
    | ReadBoth(id: Id, pair: Pair)
    | LoadedDown(id: Id, pair: Pair, value: nat)
    | Counted(id: Id, pair: Pair)

  datatype State = State(
    slots: seq<Slot>,
    producers: seq<Producer>,
    consumer: Consumer,
    mailbox: seq<Id>,
    posted: seq<(Id, Pair)>,
    ran: seq<(Id, Pair)>)
  {
    ghost predicate Shaped() {
      |slots| == IDS && |producers| == IDS
    }
  }

  /** A call, the next step of a producer, with the mailbox full or not, or of the task thread. */
  datatype Event =
    | Call(id: Id, pair: Pair, block: bool)
    | Advance(id: Id, full: bool)
    | Task

  ghost predicate Start(s: State) {
    && s.Shaped() && s.consumer == Waiting && s.mailbox == [] && s.posted == [] && s.ran == []
    && forall i: Id :: s.slots[i].cnt == 0 && s.producers[i] == Outside
  }

  function SetProducer(s: State, id: Id, p: Producer): State
    requires s.Shaped()
  {
    s.(producers := s.producers[id := p])
  }

  /** One attempt on the mailbox. Where the blocking form gives up, its caller goes on to count. */
  function TryPost(s: State, id: Id, full: bool): State
    requires s.Shaped() && s.producers[id].WroteBoth?
  {
    var p := s.producers[id];
    if !full then
      SetProducer(s.(mailbox := s.mailbox + [id], posted := s.posted + [(id, p.pair)]), id, Counting)
    else if !p.block then SetProducer(s, id, Outside)
    else if p.failed + 1 < ATTEMPTS then SetProducer(s, id, p.(failed := p.failed + 1))
    else SetProducer(s, id, Counting)
  }

  /** The next step of a producer that has got past the test of cnt. */
  function Produce(s: State, id: Id, full: bool): State
    requires s.Shaped()
  {
    var slot := s.slots[id];
    match s.producers[id]
    case Outside => s
    case Checked(pair, block) =>
      SetProducer(s.(slots := s.slots[id := slot.(routine := pair.routine)]), id, WroteRoutine(pair, block))
    case WroteRoutine(pair, block) =>
      SetProducer(s.(slots := s.slots[id := slot.(ctx := pair.ctx)]), id, WroteBoth(pair, block, 0))
    case WroteBoth(_, _, _) => TryPost(s, id, full)
    case Counting => SetProducer(s, id, LoadedCount(slot.cnt))
    case LoadedCount(value) =>
      SetProducer(s.(slots := s.slots[id := slot.(cnt := (value + 1) % BYTE)]), id, Outside)
  }

  /** The next step of the task thread. */
  function Consume(s: State): State
    requires s.Shaped()
  {
    match s.consumer
    case Waiting =>
      if s.mailbox == [] then s
      else s.(consumer := Got(s.mailbox[0]), mailbox := s.mailbox[1..])
    case Got(id) => s.(consumer := ReadRoutine(id, s.slots[id].routine))
    case ReadRoutine(id, f) => s.(consumer := ReadBoth(id, Pair(f, s.slots[id].ctx)))
    case ReadBoth(id, pair) => s.(consumer := LoadedDown(id, pair, s.slots[id].cnt))
    case LoadedDown(id, pair, value) =>
      s.(slots := s.slots[id := s.slots[id].(cnt := (value + BYTE - 1) % BYTE)],
         consumer := Counted(id, pair))
    case Counted(id, pair) => s.(consumer := Waiting, ran := s.ran + [(id, pair)])
  }

  function Step(s: State, ev: Event): (r: State)
    requires s.Shaped()
    ensures r.Shaped()
  {
    match ev
    case Call(id, pair, block) =>
      if s.producers[id].Outside? && s.slots[id].cnt == 0 then SetProducer(s, id, Checked(pair, block)) else s
    case Advance(id, full) => Produce(s, id, full)
    case Task => Consume(s)
  }

  function Run(s: State, events: seq<Event>): (r: State)
    requires s.Shaped()
    ensures r.Shaped()
    decreases |events|
  {
    if events == [] then s else Run(Step(s, events[0]), events[1..])
  }

  /** The task thread has the message and has not yet stored the lowered count. */
  predicate Holding(c: Consumer, id: Id) {
    !c.Waiting? && !c.Counted? && c.id == id
  }

  predicate InFlight(s: State, id: Id) {
    id in s.mailbox || Holding(s.consumer, id)
  }

  /** Past the post, and the raised count not yet stored. */
  predicate Uncounted(p: Producer) {
    p.Counting? || p.LoadedCount?
  }

  predicate Preparing(p: Producer) {
    p.Checked? || p.WroteRoutine? || p.WroteBoth?
  }

  /** The task thread is between the load and the store of this count. */
  predicate Lowering(c: Consumer, id: Id) {
    c.LoadedDown? && c.id == id
  }

  /** The step loads a count while the other side is between its load and its store. */
  predicate Overlaps(s: State, ev: Event, id: Id)
    requires s.Shaped()
  {
    || (ev.Advance? && ev.id == id && s.producers[id].Counting? && Lowering(s.consumer, id))
    || (ev.Task? && s.consumer.ReadBoth? && s.consumer.id == id && s.producers[id].LoadedCount?)
  }

  /** The step is the tenth attempt of a blocking post, and the mailbox is full again. */
  predicate GivesUp(s: State, ev: Event, id: Id)
    requires s.Shaped()
  {
    && ev.Advance? && ev.id == id && ev.full
    && s.producers[id].WroteBoth? && s.producers[id].block && s.producers[id].failed + 1 >= ATTEMPTS
  }

  /** Along a run no two updates of this count overlap and no post of this message is given up. */
  predicate Undisturbed(s: State, events: seq<Event>, id: Id)
    requires s.Shaped()
    decreases |events|
  {
    events == [] ||
    (!Overlaps(s, events[0], id) && !GivesUp(s, events[0], id) && Undisturbed(Step(s, events[0]), events[1..], id))
  }

  /** A blocking post is tried ten times; then its caller goes on as if it were in the mailbox. */
  lemma TenAttempts(s: State, id: Id)
    requires s.Shaped() && s.producers[id].WroteBoth? && s.producers[id].block
    ensures var p, r := s.producers[id], Step(s, Advance(id, true));
            && r.mailbox == s.mailbox && r.posted == s.posted && r.slots == s.slots
            && r.producers[id] == if p.failed < 9 then p.(failed := p.failed + 1) else Counting
  {
  }

  /** Counts are bytes. */
  lemma CountsAreBytes(s: State, id: Id)
    requires s.Shaped() && SlotOk(s, id)
    ensures s.slots[id].cnt
         == ((if InFlight(s, id) then 1 else 0) - (if Uncounted(s.producers[id]) then 1 else 0)) % 256
  {
  }

  /** What the slots of the queued messages hold, in queue order. */
  function Contents(mailbox: seq<Id>, slots: seq<Slot>): seq<(Id, Pair)>
    requires |slots| == IDS
  {
    seq(|mailbox|, i requires 0 <= i < |mailbox| =>
      (mailbox[i], Pair(slots[mailbox[i]].routine, slots[mailbox[i]].ctx)))
  }

  /** The message the task thread is busy with, if any. */
  function Current(c: Consumer, slots: seq<Slot>): seq<(Id, Pair)>
    requires |slots| == IDS
  {
    match c
    case Waiting => []
    case Got(id) => [(id, Pair(slots[id].routine, slots[id].ctx))]
    case ReadRoutine(id, f) => [(id, Pair(f, slots[id].ctx))]
    case ReadBoth(id, pair) => [(id, pair)]
    case LoadedDown(id, pair, _) => [(id, pair)]
    case Counted(id, pair) => [(id, pair)]
  }

  /** cnt is what is in flight less what is not yet counted, modulo 256. */
  ghost predicate CountRight(s: State, id: Id)
    requires s.Shaped()
  {
    s.slots[id].cnt
    == ((if InFlight(s, id) then 1 else 0) - (if Uncounted(s.producers[id]) then 1 else 0)) % BYTE
  }

  /** What holds of a slot as long as nothing has disturbed it. */
  ghost predicate SlotOk(s: State, id: Id)
    requires s.Shaped()
  {
    && CountRight(s, id)
    && (Preparing(s.producers[id]) ==> !InFlight(s, id))
    && (s.producers[id].LoadedCount? ==> s.producers[id].value == s.slots[id].cnt && !Lowering(s.consumer, id))
    && (Lowering(s.consumer, id) ==> s.consumer.value == s.slots[id].cnt)
  }

  /**
   * What holds of a slot for ever after something has disturbed it: the count is wrong, or
   * is about to be stored wrong, and no call gets past the test.
   */
  ghost predicate Wedged(s: State, id: Id)
    requires s.Shaped()
  {
    var p, c, cnt := s.producers[id], s.consumer, s.slots[id].cnt;
    && id !in s.mailbox
    && if Lowering(c, id) then
         && c.value == 0
         && ((p == LoadedCount(0) && cnt == 0) || (p == Outside && cnt == 1))
       else
         && !Holding(c, id)
         && ((p == Outside && cnt != 0) || (p == Counting && cnt == 0)
             || (p == LoadedCount(0) && (cnt == 0 || cnt == BYTE - 1)))
  }

  /** What the producer has written is in the slot. */
  ghost predicate Written(s: State, id: Id)
    requires s.Shaped()
  {
    var p := s.producers[id];
    && (p.WroteRoutine? ==> s.slots[id].routine == p.pair.routine)
    && (p.WroteBoth? ==> Pair(s.slots[id].routine, s.slots[id].ctx) == p.pair)
  }

  /** At most one copy of a message is in flight. */
  ghost predicate SingleCopies(s: State) {
    && (forall i, j | 0 <= i < j < |s.mailbox| :: s.mailbox[i] != s.mailbox[j])
    && (forall i | 0 <= i < |s.mailbox| :: !Holding(s.consumer, s.mailbox[i]))
  }

  ghost predicate Inv(s: State) {
    && s.Shaped()
    && (forall id: Id :: (SlotOk(s, id) || Wedged(s, id)) && Written(s, id))
    && SingleCopies(s)
    && s.posted == s.ran + Current(s.consumer, s.slots) + Contents(s.mailbox, s.slots)
  }

  lemma NotBoth(s: State, id: Id)
    requires s.Shaped()
    ensures !(SlotOk(s, id) && Wedged(s, id))
  {
  }

  lemma StartHolds(s: State)
    requires Start(s)
    ensures Inv(s) && forall id: Id :: SlotOk(s, id)
  {
  }

  /** A write to a slot whose message is not in flight is seen by nobody. */
  lemma PrivateWrite(s: State, slots: seq<Slot>, id: Id)
    requires s.Shaped() && |slots| == IDS && !InFlight(s, id)
    requires forall i: Id | i != id :: slots[i].routine == s.slots[i].routine && slots[i].ctx == s.slots[i].ctx
    ensures Contents(s.mailbox, slots) == Contents(s.mailbox, s.slots)
    ensures Current(s.consumer, slots) == Current(s.consumer, s.slots)
  {
  }

  /** Changing counts changes no message. */
  lemma CountsAreNotContents(s: State, slots: seq<Slot>)
    requires s.Shaped() && |slots| == IDS
    requires forall i: Id :: slots[i].routine == s.slots[i].routine && slots[i].ctx == s.slots[i].ctx
    ensures Contents(s.mailbox, slots) == Contents(s.mailbox, s.slots)
    ensures Current(s.consumer, slots) == Current(s.consumer, s.slots)
  {
  }

  /** What one step does to slot i: right it stays unless disturbed, wedged it stays in any case. */
  ghost predicate SlotFollows(s: State, ev: Event, i: Id)
    requires s.Shaped()
  {
    var r := Step(s, ev);
    && (SlotOk(s, i) ==> if Overlaps(s, ev, i) || GivesUp(s, ev, i) then Wedged(r, i) else SlotOk(r, i))
    && (Wedged(s, i) ==> Wedged(r, i))
    && Written(r, i)
  }

  lemma CallFollows(s: State, id: Id, pair: Pair, block: bool, i: Id)
    requires Inv(s)
    ensures SlotFollows(s, Call(id, pair, block), i)
  {
    assert (SlotOk(s, i) || Wedged(s, i)) && Written(s, i);
  }

  lemma OthersFollow(s: State, id: Id, full: bool, i: Id)
    requires Inv(s) && i != id
    ensures SlotFollows(s, Advance(id, full), i)
  {
    var r := Produce(s, id, full);
    assert (SlotOk(s, i) || Wedged(s, i)) && Written(s, i);
    assert r.mailbox == s.mailbox || r.mailbox == s.mailbox + [id];
    assert r.slots[i] == s.slots[i] && r.producers[i] == s.producers[i] && r.consumer == s.consumer;
  }

  lemma WriterFollows(s: State, id: Id, full: bool)
    requires Inv(s) && (s.producers[id].Outside? || s.producers[id].Checked? || s.producers[id].WroteRoutine?)
    ensures SlotFollows(s, Advance(id, full), id)
  {
    assert (SlotOk(s, id) || Wedged(s, id)) && Written(s, id);
  }

  lemma PosterFollows(s: State, id: Id, full: bool)
    requires Inv(s) && s.producers[id].WroteBoth?
    ensures SlotFollows(s, Advance(id, full), id)
  {
    assert (SlotOk(s, id) || Wedged(s, id)) && Written(s, id);
    if !full {
      assert Produce(s, id, full).mailbox == s.mailbox + [id];
    }
  }

  lemma CounterFollows(s: State, id: Id, full: bool)
    requires Inv(s) && Uncounted(s.producers[id])
    ensures SlotFollows(s, Advance(id, full), id)
  {
    assert (SlotOk(s, id) || Wedged(s, id)) && Written(s, id);
  }

  lemma ProducerFollows(s: State, id: Id, full: bool)
    requires Inv(s)
    ensures SlotFollows(s, Advance(id, full), id)
  {
    if s.producers[id].WroteBoth? {
      PosterFollows(s, id, full);
    } else if Uncounted(s.producers[id]) {
      CounterFollows(s, id, full);
    } else {
      WriterFollows(s, id, full);
    }
  }

  lemma TaskFollows(s: State, i: Id)
    requires Inv(s)
    ensures SlotFollows(s, Task, i)
  {
    var r := Consume(s);
    assert (SlotOk(s, i) || Wedged(s, i)) && Written(s, i);
    if s.consumer.Waiting? && s.mailbox != [] {
      assert s.mailbox == [s.mailbox[0]] + r.mailbox;
      assert i in s.mailbox <==> i == s.mailbox[0] || i in r.mailbox;
      assert i == s.mailbox[0] ==> i !in r.mailbox;
    } else {
      assert r.mailbox == s.mailbox;
    }
  }

  lemma StepFollows(s: State, ev: Event, i: Id)
    requires Inv(s)
    ensures SlotFollows(s, ev, i)
  {
    match ev
    case Call(id, pair, block) => CallFollows(s, id, pair, block, i);
    case Advance(id, full) => if i == id { ProducerFollows(s, id, full); } else { OthersFollow(s, id, full, i); }
    case Task => TaskFollows(s, i);
  }

  lemma ProduceKeepsOrder(s: State, id: Id, full: bool)
    requires Inv(s)
    ensures var r := Produce(s, id, full);
            SingleCopies(r) && r.posted == r.ran + Current(r.consumer, r.slots) + Contents(r.mailbox, r.slots)
  {
    var r := Produce(s, id, full);
    assert (SlotOk(s, id) || Wedged(s, id)) && Written(s, id);
    match s.producers[id]
    case Outside =>
    case Checked(_, _) => PrivateWrite(s, r.slots, id);
    case WroteRoutine(_, _) => PrivateWrite(s, r.slots, id);
    case WroteBoth(pair, _, _) =>
      if !full {
        assert Contents(r.mailbox, r.slots) == Contents(s.mailbox, s.slots) + [(id, pair)];
      }
    case Counting =>
    case LoadedCount(_) => CountsAreNotContents(s, r.slots);
  }

  lemma ConsumeKeepsOrder(s: State)
    requires Inv(s)
    ensures var r := Consume(s);
            SingleCopies(r) && r.posted == r.ran + Current(r.consumer, r.slots) + Contents(r.mailbox, r.slots)
  {
    var r := Consume(s);
    if s.consumer.Waiting? && s.mailbox != [] {
      FirstOfContents(s.mailbox, s.slots);
      Regroup(s.ran, Current(r.consumer, r.slots), Contents(r.mailbox, r.slots));
      assert s.ran + [] == s.ran;
    }
    if s.consumer.LoadedDown? {
      CountsAreNotContents(s, r.slots);
    }
    if s.consumer.Counted? {
      assert r.ran + [] == r.ran;
    }
  }

  lemma Regroup<T>(x: seq<T>, y: seq<T>, z: seq<T>)
    ensures x + (y + z) == x + y + z
  {
  }

  lemma FirstOfContents(mailbox: seq<Id>, slots: seq<Slot>)
    requires mailbox != [] && |slots| == IDS
    ensures Contents(mailbox, slots) == Current(Got(mailbox[0]), slots) + Contents(mailbox[1..], slots)
  {
  }

  lemma StepHolds(s: State, ev: Event)
    requires Inv(s)
    ensures Inv(Step(s, ev))
  {
    forall i: Id
      ensures (SlotOk(Step(s, ev), i) || Wedged(Step(s, ev), i)) && Written(Step(s, ev), i)
    {
      assert SlotOk(s, i) || Wedged(s, i);
      StepFollows(s, ev, i);
    }
    match ev
    case Call(_, _, _) =>
    case Advance(id, full) => ProduceKeepsOrder(s, id, full);
    case Task => ConsumeKeepsOrder(s);
  }

  /**
   * Over every interleaving, disturbed or not, at most one copy of a message is in flight,
   * and what the task has run, holds and has queued is, in order, what was posted.
   */
  lemma {:induction false} RunHolds(s: State, events: seq<Event>)
    requires Inv(s)
    ensures Inv(Run(s, events))
    decreases |events|
  {
    if events != [] {
      StepHolds(s, events[0]);
      RunHolds(Step(s, events[0]), events[1..]);
    }
  }

  /** Once wedged, wedged for good, whatever happens. */
  lemma {:induction false} WedgedForGood(s: State, events: seq<Event>, id: Id)
    requires Inv(s) && Wedged(s, id)
    ensures Wedged(Run(s, events), id)
    decreases |events|
  {
    if events != [] {
      StepFollows(s, events[0], id);
      StepHolds(s, events[0]);
      WedgedForGood(Step(s, events[0]), events[1..], id);
    }
  }

  /**
   * cnt is right modulo 256 after a run exactly when along it no two updates of it have
   * overlapped and no blocking post of the message was given up; otherwise the slot is
   * wedged.
   */
  lemma {:induction false} CountIsRightIff(s: State, events: seq<Event>, id: Id)
    requires Inv(s) && SlotOk(s, id)
    ensures SlotOk(Run(s, events), id) <==> Undisturbed(s, events, id)
    ensures Wedged(Run(s, events), id) <==> !Undisturbed(s, events, id)
    decreases |events|
  {
    NotBoth(Run(s, events), id);
    if events != [] {
      StepFollows(s, events[0], id);
      StepHolds(s, events[0]);
      if Overlaps(s, events[0], id) || GivesUp(s, events[0], id) {
        WedgedForGood(Step(s, events[0]), events[1..], id);
      } else {
        CountIsRightIff(Step(s, events[0]), events[1..], id);
      }
    }
  }

  /** A wedged slot turns every call away and nothing more is posted from it. */
  lemma WedgedTurnsAway(s: State, id: Id, ev: Event)
    requires Inv(s) && Wedged(s, id)
    ensures ev.Call? && ev.id == id ==> Step(s, ev) == s
    ensures ev.Advance? && ev.id == id ==> Step(s, ev).posted == s.posted
  {
  }

  /**
   * So the task runs exactly the pairs that were posted, in the order of posting; and when
   * the message of an id is at rest, its next call is let in exactly if nothing has
   * disturbed it.
   */
  lemma RunsExactlyWhatWasPosted(s: State, events: seq<Event>)
    requires Start(s)
    ensures var r := Run(s, events);
            && r.ran <= r.posted
            && (r.mailbox == [] && r.consumer == Waiting ==> r.ran == r.posted)
            && (forall id: Id :: r.producers[id].Outside? && !InFlight(r, id) ==>
                  (r.slots[id].cnt == 0 <==> Undisturbed(s, events, id)))
  {
    StartHolds(s);
    RunHolds(s, events);
    var r := Run(s, events);
    forall id: Id | r.producers[id].Outside? && !InFlight(r, id)
      ensures r.slots[id].cnt == 0 <==> Undisturbed(s, events, id)
    {
      CountIsRightIff(s, events, id);
    }
  }

  /**
   * Overlapping updates are enough: here the lowering of the count falls between the load
   * and the store of its raising. All is delivered and everybody is outside, yet the count
   * stays at one, and every later call for this id is turned away.
   */
  lemma LostUpdateWedgesTheSlot(id: Id, pair: Pair, block: bool) returns (s: State, events: seq<Event>)
    ensures Start(s)
    ensures var r := Run(s, events);
            && r.ran == r.posted == [(id, pair)]
            && r.mailbox == [] && r.consumer == Waiting && r.producers[id].Outside?
            && r.slots[id].cnt == 1
            && forall next: Pair, b: bool :: Step(r, Call(id, next, b)) == r
  {
    s := AtRest();
    var up := [Call(id, pair, block), Advance(id, false), Advance(id, false), Advance(id, false), Advance(id, false)];
    var down := [Task, Task, Task, Task, Task];
    var last := [Advance(id, false), Task];
    events := up + down + last;
    RunConcat(s, up + down, last);
    RunConcat(s, up, down);
    RaiseUpToTheLoad(s, id, pair, block);
    var mid := Run(s, up);
    LowerPastTheStore(mid, id, pair);
    var low := Run(mid, down);
    TwoSteps(low, last);
  }

  function AtRest(): State {
    State(seq(IDS, i => Slot(0, 0, 0)), seq(IDS, i => Outside), Waiting, [], [], [])
  }

  /** So is one blocking post given up: nothing was ever posted, and every later call is turned away. */
  lemma GivenUpWedgesTheSlot(id: Id, pair: Pair) returns (s: State, events: seq<Event>)
    ensures Start(s)
    ensures forall e | e in events :: !e.Task?
    ensures var r := Run(s, events);
            && r.posted == [] && r.mailbox == [] && r.consumer == Waiting && r.producers[id].Outside?
            && r.slots[id].cnt == 1
            && forall next: Pair, b: bool :: Step(r, Call(id, next, b)) == r
  {
    s := AtRest();
    var write := [Call(id, pair, true), Advance(id, true), Advance(id, true)];
    var count := [Advance(id, true), Advance(id, true)];
    events := write + Failures(id, ATTEMPTS) + count;
    RunConcat(s, write + Failures(id, ATTEMPTS), count);
    RunConcat(s, write, Failures(id, ATTEMPTS));
    assert write == write[..2] + write[2..] && write[2..][1..] == [];
    RunConcat(s, write[..2], write[2..]);
    TwoSteps(s, write[..2]);
    var two := Run(s, write[..2]);
    var ready := Step(two, write[2]);
    assert Run(two, write[2..]) == Run(ready, []) == ready;
    assert ready.producers[id] == WroteBoth(pair, true, 0);
    AttemptsFail(ready, id, ATTEMPTS);
    TwoSteps(Run(ready, Failures(id, ATTEMPTS)), count);
  }

  function Failures(id: Id, n: nat): (events: seq<Event>)
    ensures |events| == n && forall e | e in events :: e == Advance(id, true)
  {
    if n == 0 then [] else [Advance(id, true)] + Failures(id, n - 1)
  }

  lemma {:induction false} AttemptsFail(s: State, id: Id, n: nat)
    requires s.Shaped() && 1 <= n <= ATTEMPTS
    requires s.producers[id].WroteBoth? && s.producers[id].block && s.producers[id].failed == ATTEMPTS - n
    ensures Run(s, Failures(id, n)) == SetProducer(s, id, Counting)
    decreases n
  {
    var next := Step(s, Advance(id, true));
    assert Failures(id, n)[0] == Advance(id, true) && Failures(id, n)[1..] == Failures(id, n - 1);
    if n == 1 {
      assert Run(next, []) == next;
    } else {
      AttemptsFail(next, id, n - 1);
      assert SetProducer(next, id, Counting) == SetProducer(s, id, Counting);
    }
  }

  lemma TwoSteps(s: State, e: seq<Event>)
    requires s.Shaped() && |e| == 2
    ensures Run(s, e) == Step(Step(s, e[0]), e[1])
  {
    var a := Step(s, e[0]);
    assert e[1..][1..] == [];
    assert Run(a, e[1..]) == Run(Step(a, e[1]), []);
  }

  lemma FiveSteps(s: State, e: seq<Event>)
    requires s.Shaped() && |e| == 5
    ensures Run(s, e)
         == Step(Step(Step(Step(Step(s, e[0]), e[1]), e[2]), e[3]), e[4])
  {
    assert e == e[..2] + e[2..4] + e[4..];
    RunConcat(s, e[..2] + e[2..4], e[4..]);
    RunConcat(s, e[..2], e[2..4]);
    TwoSteps(s, e[..2]);
    var a := Run(s, e[..2]);
    TwoSteps(a, e[2..4]);
    var b := Run(a, e[2..4]);
    assert e[4..][1..] == [];
    assert Run(b, e[4..]) == Run(Step(b, e[4]), []);
  }

  lemma RaiseUpToTheLoad(s: State, id: Id, pair: Pair, block: bool)
    requires s.Shaped() && s.producers[id] == Outside && s.slots[id].cnt == 0
    ensures var up := [Call(id, pair, block), Advance(id, false), Advance(id, false), Advance(id, false), Advance(id, false)];
            var r := Run(s, up);
            && r.slots[id] == Slot(pair.routine, pair.ctx, 0) && r.producers[id] == LoadedCount(0)
            && r.consumer == s.consumer && r.ran == s.ran
            && r.mailbox == s.mailbox + [id] && r.posted == s.posted + [(id, pair)]
  {
    var up := [Call(id, pair, block), Advance(id, false), Advance(id, false), Advance(id, false), Advance(id, false)];
    FiveSteps(s, up);
    var a := Step(s, up[0]);
    var b := Step(a, up[1]);
    var c := Step(b, up[2]);
    var d := Step(c, up[3]);
    assert c.slots[id] == Slot(pair.routine, pair.ctx, 0) && c.producers[id] == WroteBoth(pair, block, 0);
    assert d.producers[id] == Counting && d.slots == c.slots;
  }

  lemma LowerPastTheStore(s: State, id: Id, pair: Pair)
    requires s.Shaped() && s.mailbox == [id] && s.consumer == Waiting
    requires s.slots[id] == Slot(pair.routine, pair.ctx, 0)
    ensures var r := Run(s, [Task, Task, Task, Task, Task]);
            && r.producers == s.producers && r.posted == s.posted && r.ran == s.ran
            && r.consumer == Counted(id, pair) && r.mailbox == []
            && r.slots[id] == Slot(pair.routine, pair.ctx, BYTE - 1)
  {
    FiveSteps(s, [Task, Task, Task, Task, Task]);
    var a := Step(s, Task);
    var b := Step(a, Task);
    var c := Step(b, Task);
    var d := Step(c, Task);
    assert d.consumer == LoadedDown(id, pair, 0) && d.slots == s.slots;
  }

  lemma {:induction false} RunConcat(s: State, a: seq<Event>, b: seq<Event>)
    requires s.Shaped()
    ensures Run(s, a + b) == Run(Run(s, a), b)
    decreases |a|
  {
    if a == [] {
      assert a + b == b;
    } else {
      assert (a + b)[0] == a[0] && (a + b)[1..] == a[1..] + b;
      RunConcat(Step(s, a[0]), a[1..], b);
    }
  }
}
