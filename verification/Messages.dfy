/**
 * The messages that wm_wl_task.c allocates: who owns them, from the call that allocates
 * one to its release, and in which order the task thread works on them. Every allocation
 * is told apart by its number. Posting is one attempt on the queue at a time; the
 * blocking form makes up to ten.
 */
module Messages {
  import M = Mbox
  import T = TimerSpec

  const ATTEMPTS := 10

  datatype Message =
    | Callback(routine: nat, ctx: nat)
    | Timeout(ms: M.u32, h: T.Handler, arg: T.Arg)
    | Untimeout(h: T.Handler, arg: T.Arg)

  /** What the mailbox holds: an allocated message or one of the reusable ones. */
  datatype Item = Heap(n: nat) | Static(id: nat)

  /** The caller, while it posts, and once its call has returned. */
  datatype Poster = Posting(block: bool, attempt: nat) | Done(block: bool)

  datatype Task = Waiting | Working(item: Item) | Worked(item: Item)

  /**
   * What the task thread did: work on an item, with memory for a new timer or without, or,
   * from a routine or a handler that it runs, a direct call of the timer functions.
   */
  datatype Deed = FromMailbox(item: Item, room: bool) | Direct(command: T.Event)

  /**
   * The size of the mailbox, all messages allocated so far with the poster of each, the
   * mailbox, the task thread, the timers, what was freed, what was given up, what the
   * callers were told, and four logs: of posting, of work, of the callbacks called with their
   * contexts, and of the timer events.
   */
  datatype State = State(
    size: nat,
    msgs: seq<Message>,
    posters: seq<Poster>,
    mailbox: seq<Item>,
    task: Task,
    timers: T.State,
    freed: seq<Item>,
    lost: seq<Item>,
    told: seq<(Item, bool)>,
    posted: seq<Item>,
    worked: seq<Deed>,
    called: seq<(nat, nat)>,
    history: seq<T.Event>)

  datatype Event =
    | Call(m: Message, block: bool)
    | Attempt(n: nat)
    | PostStatic(id: nat)
    | Fetch(outcome: M.Outcome)
    | Work(room: bool)
    | Release
    | TimerCall(command: T.Event)

  function Start(size: nat): State {
    State(size, [], [], [], Waiting, T.Start(), [], [], [], [], [], [], [])
  }

  /** Timers are always posted in the blocking form. */
  function Allocate(s: State, m: Message, block: bool): State {
    s.(msgs := s.msgs + [m], posters := s.posters + [Posting(block || !m.Callback?, 0)])
  }

  /** One attempt of message n on the queue. */
  function TryPost(s: State, n: nat): State
    requires n < |s.posters| && s.posters[n].Posting?
  {
    var p := s.posters[n];
    if |s.mailbox| < s.size then
      s.(posters := s.posters[n := Done(p.block)], mailbox := s.mailbox + [Heap(n)],
         posted := s.posted + [Heap(n)], told := s.told + [(Heap(n), true)])
    else if !p.block then
      s.(posters := s.posters[n := Done(p.block)], freed := s.freed + [Heap(n)], told := s.told + [(Heap(n), false)])
    else if p.attempt + 1 < ATTEMPTS then
      s.(posters := s.posters[n := Posting(true, p.attempt + 1)])
    else
      s.(posters := s.posters[n := Done(p.block)], lost := s.lost + [Heap(n)], told := s.told + [(Heap(n), true)])
  }

  /** One pass of the fetch loop: a timer fires, or a message is received. */
  function Receive(s: State, outcome: M.Outcome): State {
    var next := s.(timers := T.Step(s.timers, T.Wait(outcome)), history := s.history + [T.Wait(outcome)]);
    if outcome.Expired? || (s.timers.q != [] && s.timers.q[0].time == 0) then next
    else if s.mailbox == [] then s
    else next.(mailbox := s.mailbox[1..], task := Working(s.mailbox[0]))
  }

  /** What a deed does to the timers; setting one needs room in memory. */
  function Commands(msgs: seq<Message>, d: Deed): seq<T.Event> {
    match d
    case Direct(command) => if command.Wait? then [] else [command]
    case FromMailbox(item, room) =>
      if item.Static? || item.n >= |msgs| then []
      else
        match msgs[item.n]
        case Callback(_, _) => []
        case Timeout(ms, h, arg) => if room then [T.Add(ms, h, arg)] else []
        case Untimeout(h, arg) => [T.Cancel(h, arg)]
  }

  /** A deed, as far as timers and logs go. */
  function Perform(s: State, d: Deed): State {
    var es := Commands(s.msgs, d);
    s.(timers := T.Run(s.timers, es), history := s.history + es, worked := s.worked + [d])
  }

  /** The callback that an allocated message asks for. */
  function Callbacks(msgs: seq<Message>, item: Item): seq<(nat, nat)> {
    if item.Heap? && item.n < |msgs| && msgs[item.n].Callback?
    then [(msgs[item.n].routine, msgs[item.n].ctx)] else []
  }

  function DoWork(s: State, item: Item, room: bool): State {
    Perform(s, FromMailbox(item, room)).(task := if item.Heap? then Worked(item) else Waiting,
                                         called := s.called + Callbacks(s.msgs, item))
  }

  function Step(s: State, e: Event): State {
    match e
    case Call(m, block) => Allocate(s, m, block)
    case Attempt(n) => if n < |s.posters| && s.posters[n].Posting? then TryPost(s, n) else s
    case PostStatic(id) =>
      if |s.mailbox| < s.size then s.(mailbox := s.mailbox + [Static(id)], posted := s.posted + [Static(id)]) else s
    case Fetch(outcome) => if s.task.Waiting? then Receive(s, outcome) else s
    case Work(room) => if s.task.Working? then DoWork(s, s.task.item, room) else s
    case Release => if s.task.Worked? then s.(task := Waiting, freed := s.freed + [s.task.item]) else s
    case TimerCall(command) => if command.Wait? then s else Perform(s, Direct(command))
  }

  function Run(s: State, events: seq<Event>): State
    decreases |events|
  {
    if events == [] then s else Run(Step(s, events[0]), events[1..])
  }

  function Count(l: seq<Item>, x: Item): nat {
    if l == [] then 0 else (if l[0] == x then 1 else 0) + Count(l[1..], x)
  }

  /** In how many places message n is. */
  function Places(s: State, n: nat): nat {
    (if n < |s.posters| && s.posters[n].Posting? then 1 else 0)
    + Count(s.mailbox, Heap(n))
    + (if !s.task.Waiting? && s.task.item == Heap(n) then 1 else 0)
    + Count(s.freed, Heap(n))
    + Count(s.lost, Heap(n))
  }

  ghost predicate OnlyHeap(l: seq<Item>) {
    forall i | 0 <= i < |l| :: l[i].Heap?
  }

  /** Every message allocated is with exactly one owner, and no static message is ever freed. */
  ghost predicate Owned(s: State) {
    && |s.posters| == |s.msgs|
    && (forall n: nat :: OneOwner(s, n))
    && OnlyHeap(s.freed) && (s.task.Worked? ==> s.task.item.Heap?)
  }

  lemma {:induction false} CountConcat(a: seq<Item>, b: seq<Item>, x: Item)
    ensures Count(a + b, x) == Count(a, x) + Count(b, x)
  {
    if a == [] {
      assert a + b == b;
    } else {
      assert (a + b)[0] == a[0] && (a + b)[1..] == a[1..] + b;
      CountConcat(a[1..], b, x);
    }
  }

  lemma CountOneMore(a: seq<Item>, y: Item, x: Item)
    ensures Count(a + [y], x) == Count(a, x) + if x == y then 1 else 0
  {
    CountConcat(a, [y], x);
  }

  /** Message n has one owner once it is allocated, and none before. */
  ghost predicate OneOwner(s: State, n: nat) {
    Places(s, n) == if n < |s.msgs| then 1 else 0
  }

  lemma AttemptKeepsOwner(s: State, k: nat, n: nat)
    requires |s.posters| == |s.msgs| && OneOwner(s, n)
    requires k < |s.posters| && s.posters[k].Posting?
    ensures OneOwner(TryPost(s, k), n)
  {
    var r := TryPost(s, k);
    if |s.mailbox| < s.size {
      CountOneMore(s.mailbox, Heap(k), Heap(n));
    } else if !s.posters[k].block {
      CountOneMore(s.freed, Heap(k), Heap(n));
    } else if s.posters[k].attempt + 1 < ATTEMPTS {
      assert r.mailbox == s.mailbox && r.freed == s.freed && r.lost == s.lost;
    } else {
      CountOneMore(s.lost, Heap(k), Heap(n));
    }
    assert n != k && n < |s.posters| ==> r.posters[n] == s.posters[n];
  }

  lemma ReceiveKeepsOwner(s: State, outcome: M.Outcome, n: nat)
    requires OneOwner(s, n) && s.task.Waiting?
    ensures OneOwner(Receive(s, outcome), n)
  {
  }

  lemma WorkKeepsOwner(s: State, room: bool, n: nat)
    requires OneOwner(s, n) && s.task.Working?
    ensures OneOwner(DoWork(s, s.task.item, room), n)
  {
  }

  lemma StepKeepsOwner(s: State, e: Event, n: nat)
    requires |s.posters| == |s.msgs| && OneOwner(s, n)
    ensures OneOwner(Step(s, e), n)
  {
    match e
    case Call(_, _) =>
    case Attempt(k) =>
      if k < |s.posters| && s.posters[k].Posting? { AttemptKeepsOwner(s, k, n); }
    case PostStatic(id) =>
      CountOneMore(s.mailbox, Static(id), Heap(n));
    case Fetch(outcome) =>
      if s.task.Waiting? { ReceiveKeepsOwner(s, outcome, n); }
    case Work(room) =>
      if s.task.Working? { WorkKeepsOwner(s, room, n); }
    case Release =>
      if s.task.Worked? { CountOneMore(s.freed, s.task.item, Heap(n)); }
    case TimerCall(_) =>
  }

  lemma StepKeepsOwned(s: State, e: Event)
    requires Owned(s)
    ensures Owned(Step(s, e))
  {
    forall n: nat
      ensures OneOwner(Step(s, e), n)
    {
      assert OneOwner(s, n);
      StepKeepsOwner(s, e, n);
    }
  }

  /**
   * Over every run each allocated message is at all times with exactly one owner: its
   * poster, the mailbox, the task thread, the C library, or nobody any more.
   */
  lemma {:induction false} RunKeepsOwned(s: State, events: seq<Event>)
    requires Owned(s)
    ensures Owned(Run(s, events))
    decreases |events|
  {
    if events != [] {
      StepKeepsOwned(s, events[0]);
      RunKeepsOwned(Step(s, events[0]), events[1..]);
    }
  }

  /** So nothing is freed twice, and what is freed is nowhere else. */
  lemma FreedOnce(size: nat, events: seq<Event>, n: nat)
    ensures var r := Run(Start(size), events);
            && OnlyHeap(r.freed)
            && Count(r.freed, Heap(n)) <= 1
            && (Heap(n) in r.freed ==>
                  Heap(n) !in r.mailbox && Heap(n) !in r.lost && n < |r.posters| && r.posters[n].Done?
                  && (r.task.Waiting? || r.task.item != Heap(n)))
  {
    RunKeepsOwned(Start(size), events);
    var r := Run(Start(size), events);
    assert OneOwner(r, n);
    CountIn(r.freed, Heap(n));
    CountIn(r.mailbox, Heap(n));
    CountIn(r.lost, Heap(n));
  }

  /**
   * A message whose call has returned, once it is neither queued nor worked on, has been
   * freed exactly once, unless it was given up: then never.
   */
  lemma FreedExactlyOnce(size: nat, events: seq<Event>, n: nat)
    requires var r := Run(Start(size), events);
             && n < |r.posters| && r.posters[n].Done?
             && Heap(n) !in r.mailbox && (r.task.Waiting? || r.task.item != Heap(n))
    ensures var r := Run(Start(size), events);
            var lost := Blocking(r, n) && FullAttempts(Start(size), events, n) == 10;
            Count(r.freed, Heap(n)) == if lost then 0 else 1
  {
    RunKeepsOwned(Start(size), events);
    LostIff(size, events, n);
    var r := Run(Start(size), events);
    assert OneOwner(r, n);
    CountIn(r.mailbox, Heap(n));
    CountIn(r.lost, Heap(n));
  }

  lemma {:induction false} CountIn(l: seq<Item>, x: Item)
    ensures x in l <==> Count(l, x) > 0
  {
    if l != [] {
      assert l == [l[0]] + l[1..];
      CountIn(l[1..], x);
    }
  }

  /** The items that were worked on. */
  function Items(worked: seq<Deed>): seq<Item> {
    if worked == [] then []
    else
      var n := |worked| - 1;
      Items(worked[..n]) + if worked[n].Direct? then [] else [worked[n].item]
  }

  lemma ItemsOfOneMore(worked: seq<Deed>, d: Deed)
    ensures Items(worked + [d]) == Items(worked) + if d.Direct? then [] else [d.item]
  {
    assert (worked + [d])[..|worked|] == worked;
  }

  function InHand(t: Task): seq<Item> {
    if t.Working? then [t.item] else []
  }

  ghost predicate Allocated(s: State) {
    && (forall i | 0 <= i < |s.posted| && s.posted[i].Heap? :: s.posted[i].n < |s.msgs| == |s.posters|)
    && OnlyAllocated(s.msgs, s.worked)
  }

  ghost predicate OnlyAllocated(msgs: seq<Message>, worked: seq<Deed>) {
    forall i | 0 <= i < |worked| && worked[i].FromMailbox? && worked[i].item.Heap? :: worked[i].item.n < |msgs|
  }

  /** What was posted is worked on in that order. */
  ghost predicate InOrder(s: State) {
    && s.posted == Items(s.worked) + InHand(s.task) + s.mailbox
    && |s.posters| == |s.msgs|
    && Allocated(s)
  }

  lemma ReceiveKeepsOrder(s: State, outcome: M.Outcome)
    requires InOrder(s) && s.task.Waiting?
    ensures InOrder(Receive(s, outcome))
  {
    var r := Receive(s, outcome);
    if r.mailbox != s.mailbox {
      FirstMoves(Items(s.worked), s.mailbox);
    }
  }

  lemma FirstMoves(done: seq<Item>, l: seq<Item>)
    requires l != []
    ensures done + [] + l == done + [l[0]] + l[1..]
  {
  }

  lemma WorkKeepsOrder(s: State, room: bool)
    requires InOrder(s) && s.task.Working?
    ensures InOrder(DoWork(s, s.task.item, room))
  {
    var r, item := DoWork(s, s.task.item, room), s.task.item;
    ItemsOfOneMore(s.worked, FromMailbox(item, room));
    assert s.posted[|Items(s.worked)|] == item;
    assert Items(r.worked) + [] == Items(r.worked);
  }

  lemma PostKeepsOrder(s: State, x: Item)
    requires InOrder(s) && (x.Heap? ==> x.n < |s.msgs|)
    ensures var r := s.(mailbox := s.mailbox + [x], posted := s.posted + [x]);
            InOrder(r)
  {
    var done := Items(s.worked) + InHand(s.task);
    assert done + s.mailbox + [x] == done + (s.mailbox + [x]);
  }

  lemma AttemptKeepsOrder(s: State, n: nat)
    requires InOrder(s) && n < |s.posters| && s.posters[n].Posting?
    ensures InOrder(TryPost(s, n))
  {
    if |s.mailbox| < s.size {
      PostKeepsOrder(s, Heap(n));
    }
  }

  lemma TimerCallKeepsOrder(s: State, command: T.Event)
    requires InOrder(s)
    ensures InOrder(Perform(s, Direct(command)))
  {
    ItemsOfOneMore(s.worked, Direct(command));
    assert Items(s.worked) + [] == Items(s.worked);
  }

  lemma StepKeepsOrder(s: State, e: Event)
    requires InOrder(s)
    ensures InOrder(Step(s, e))
  {
    match e
    case Call(_, _) =>
    case Attempt(n) => if n < |s.posters| && s.posters[n].Posting? { AttemptKeepsOrder(s, n); }
    case PostStatic(id) => PostKeepsOrder(s, Static(id));
    case Fetch(outcome) => if s.task.Waiting? { ReceiveKeepsOrder(s, outcome); }
    case Work(room) => if s.task.Working? { WorkKeepsOrder(s, room); }
    case Release =>
    case TimerCall(command) => TimerCallKeepsOrder(s, command);
  }

  /** All timer commands of the work done. */
  function AllCommands(msgs: seq<Message>, worked: seq<Deed>): seq<T.Event> {
    if worked == [] then []
    else
      var n := |worked| - 1;
      AllCommands(msgs, worked[..n]) + Commands(msgs, worked[n])
  }

  /** The events of a timer log that are commands. */
  function NoWaits(history: seq<T.Event>): seq<T.Event> {
    if history == [] then []
    else
      var n := |history| - 1;
      NoWaits(history[..n]) + if history[n].Wait? then [] else [history[n]]
  }

  /** The timers are what the log of their events makes, and the commands in it are those of the work done. */
  ghost predicate TimersFollow(s: State) {
    && s.timers == T.Run(T.Start(), s.history)
    && NoWaits(s.history) == AllCommands(s.msgs, s.worked)
  }

  lemma {:induction false} TimersRunOn(t: T.State, a: seq<T.Event>, b: seq<T.Event>)
    ensures T.Run(t, a + b) == T.Run(T.Run(t, a), b)
    decreases |a|
  {
    if a == [] {
      assert a + b == b;
    } else {
      assert (a + b)[0] == a[0] && (a + b)[1..] == a[1..] + b;
      TimersRunOn(T.Step(t, a[0]), a[1..], b);
    }
  }

  lemma NoWaitsOfOneMore(history: seq<T.Event>, e: T.Event)
    ensures NoWaits(history + [e]) == NoWaits(history) + if e.Wait? then [] else [e]
  {
    assert (history + [e])[..|history|] == history;
  }

  lemma OneEvent(t: T.State, e: T.Event)
    ensures T.Run(t, [e]) == T.Step(t, e)
  {
    assert [e][1..] == [];
    assert T.Run(T.Step(t, e), []) == T.Step(t, e);
  }

  /** Messages allocated later change no commands. */
  lemma {:induction false} CommandsStay(msgs: seq<Message>, m: Message, worked: seq<Deed>)
    requires OnlyAllocated(msgs, worked)
    ensures AllCommands(msgs + [m], worked) == AllCommands(msgs, worked)
  {
    if worked != [] {
      CommandsStay(msgs, m, worked[..|worked| - 1]);
    }
  }

  lemma HistoryGrows(s: State, es: seq<T.Event>)
    requires s.timers == T.Run(T.Start(), s.history) && |es| <= 1
    ensures T.Run(s.timers, es) == T.Run(T.Start(), s.history + es)
    ensures NoWaits(s.history + es) == NoWaits(s.history) + if es == [] || es[0].Wait? then [] else es
  {
    TimersRunOn(T.Start(), s.history, es);
    if es == [] {
      assert s.history + es == s.history;
    } else {
      assert es == [es[0]];
      NoWaitsOfOneMore(s.history, es[0]);
    }
  }

  lemma FetchKeepsTimers(s: State, outcome: M.Outcome)
    requires TimersFollow(s)
    ensures TimersFollow(Receive(s, outcome))
  {
    HistoryGrows(s, [T.Wait(outcome)]);
    OneEvent(s.timers, T.Wait(outcome));
  }

  lemma DeedKeepsTimers(s: State, d: Deed)
    requires TimersFollow(s)
    ensures TimersFollow(Perform(s, d))
  {
    var es := Commands(s.msgs, d);
    AtMostOneCommand(s.msgs, d);
    CommandsOfOneMore(s.msgs, s.worked, d);
    LogsGrow(s, d, es, Perform(s, d));
  }

  lemma AtMostOneCommand(msgs: seq<Message>, d: Deed)
    ensures var es := Commands(msgs, d); |es| <= 1 && (es != [] ==> !es[0].Wait?)
  {
  }

  lemma LogsGrow(s: State, d: Deed, es: seq<T.Event>, r: State)
    requires TimersFollow(s) && |es| <= 1 && (es != [] ==> !es[0].Wait?)
    requires AllCommands(s.msgs, s.worked + [d]) == AllCommands(s.msgs, s.worked) + es
    requires r == s.(timers := T.Run(s.timers, es), history := s.history + es, worked := s.worked + [d])
    ensures TimersFollow(r)
  {
    HistoryGrows(s, es);
  }

  lemma CommandsOfOneMore(msgs: seq<Message>, worked: seq<Deed>, d: Deed)
    ensures AllCommands(msgs, worked + [d]) == AllCommands(msgs, worked) + Commands(msgs, d)
  {
    assert (worked + [d])[..|worked|] == worked;
  }

  lemma CallKeepsTimers(s: State, m: Message, block: bool)
    requires TimersFollow(s) && OnlyAllocated(s.msgs, s.worked)
    ensures TimersFollow(Allocate(s, m, block))
  {
    CommandsStay(s.msgs, m, s.worked);
  }

  lemma AttemptKeepsTimers(s: State, n: nat)
    requires TimersFollow(s) && n < |s.posters| && s.posters[n].Posting?
    ensures TimersFollow(TryPost(s, n))
  {
  }

  lemma StepKeepsTimers(s: State, e: Event)
    requires InOrder(s) && TimersFollow(s)
    ensures TimersFollow(Step(s, e))
  {
    match e
    case Call(m, block) => CallKeepsTimers(s, m, block);
    case Attempt(n) => if n < |s.posters| && s.posters[n].Posting? { AttemptKeepsTimers(s, n); }
    case PostStatic(_) =>
    case Fetch(outcome) => FetchKeepsTimers(s, outcome);
    case Work(room) => if s.task.Working? { DeedKeepsTimers(s, FromMailbox(s.task.item, room)); }
    case Release =>
    case TimerCall(command) => DeedKeepsTimers(s, Direct(command));
  }

  lemma {:induction false} RunKeepsLogs(s: State, events: seq<Event>)
    requires InOrder(s) && TimersFollow(s)
    ensures InOrder(Run(s, events)) && TimersFollow(Run(s, events))
    decreases |events|
  {
    if events != [] {
      StepKeepsOrder(s, events[0]);
      StepKeepsTimers(s, events[0]);
      RunKeepsLogs(Step(s, events[0]), events[1..]);
    }
  }

  predicate Pending(s: State, n: nat) {
    n >= |s.posters| || s.posters[n].Posting?
  }

  /** What the caller that allocated message n was told, if the call has returned. */
  ghost predicate Answered(s: State, n: nat) {
    var x := Heap(n);
    && (Pending(s, n) <==> (x, true) !in s.told && (x, false) !in s.told)
    && ((x, true) in s.told <==> x in s.posted || x in s.lost)
    && ((x, false) in s.told ==> x in s.freed && x !in s.posted && x !in s.lost)
    && !(x in s.posted && x in s.lost)
  }

  ghost predicate AllAnswered(s: State) {
    && (forall n: nat :: Answered(s, n))
    && OnlyHeap(s.lost)
  }

  lemma AttemptKeepsAnswers(s: State, k: nat, n: nat)
    requires k < |s.posters| && s.posters[k].Posting? && Answered(s, n) && Answered(s, k)
    ensures Answered(TryPost(s, k), n)
  {
    var r := TryPost(s, k);
    assert n != k && n < |s.posters| ==> r.posters[n] == s.posters[n];
    assert Pending(r, n) == if n == k then r.posters[k].Posting? else Pending(s, n);
  }

  lemma StepKeepsAnswers(s: State, e: Event)
    requires AllAnswered(s)
    ensures AllAnswered(Step(s, e))
  {
    forall n: nat
      ensures Answered(Step(s, e), n)
    {
      assert Answered(s, n);
      if e.Attempt? && e.n < |s.posters| && s.posters[e.n].Posting? {
        assert Answered(s, e.n);
        AttemptKeepsAnswers(s, e.n, n);
      }
    }
  }

  lemma {:induction false} RunKeepsAnswers(s: State, events: seq<Event>)
    requires AllAnswered(s)
    ensures AllAnswered(Run(s, events))
    decreases |events|
  {
    if events != [] {
      StepKeepsAnswers(s, events[0]);
      RunKeepsAnswers(Step(s, events[0]), events[1..]);
    }
  }

  /** How many attempts on message n, along a run, find the mailbox full. */
  function FullAttempts(s: State, events: seq<Event>, n: nat): nat
    decreases |events|
  {
    if events == [] then 0
    else (if MeetsFull(s, events[0], n) then 1 else 0) + FullAttempts(Step(s, events[0]), events[1..], n)
  }

  predicate MeetsFull(s: State, e: Event, n: nat) {
    e == Attempt(n) && n < |s.posters| && s.posters[n].Posting? && |s.mailbox| >= s.size
  }

  predicate Blocking(s: State, n: nat) {
    n < |s.posters| && s.posters[n].block
  }

  /** Where message n stands after k attempts have found the mailbox full. */
  ghost predicate Tried(s: State, n: nat, k: nat) {
    var x := Heap(n);
    && (n >= |s.posters| ==> k == 0)
    && (n < |s.posters| && s.posters[n].Posting? ==>
          s.posters[n].attempt == k < ATTEMPTS && (!s.posters[n].block ==> k == 0))
    && (x in s.lost <==> Blocking(s, n) && k == ATTEMPTS)
    && ((x, false) in s.told <==> n < |s.posters| && !Blocking(s, n) && k == 1)
    && (!Blocking(s, n) ==> k <= 1)
    && k <= ATTEMPTS
  }

  lemma AttemptKeepsTried(s: State, m: nat, n: nat, k: nat)
    requires m < |s.posters| && s.posters[m].Posting? && Tried(s, n, k)
    ensures Tried(TryPost(s, m), n, if m == n && |s.mailbox| >= s.size then k + 1 else k)
  {
    var r := TryPost(s, m);
    assert n != m && n < |s.posters| ==> r.posters[n] == s.posters[n];
  }

  lemma StepKeepsTried(s: State, e: Event, n: nat, k: nat)
    requires Tried(s, n, k)
    ensures Tried(Step(s, e), n, if MeetsFull(s, e, n) then k + 1 else k)
  {
    if e.Attempt? && e.n < |s.posters| && s.posters[e.n].Posting? {
      AttemptKeepsTried(s, e.n, n, k);
    }
  }

  lemma {:induction false} RunKeepsTried(s: State, events: seq<Event>, n: nat, k: nat)
    requires Tried(s, n, k)
    ensures Tried(Run(s, events), n, k + FullAttempts(s, events, n))
    decreases |events|
  {
    if events != [] {
      StepKeepsTried(s, events[0], n, k);
      RunKeepsTried(Step(s, events[0]), events[1..], n, if MeetsFull(s, events[0], n) then k + 1 else k);
    }
  }

  /**
   * Under every interleaving a message is given up exactly when it was posted in the
   * blocking form and ten of its attempts found the mailbox full, and refused exactly when
   * it was posted in the other form and its one attempt did.
   */
  lemma LostIff(size: nat, events: seq<Event>, n: nat)
    ensures var r := Run(Start(size), events);
            && (Heap(n) in r.lost <==> Blocking(r, n) && FullAttempts(Start(size), events, n) == 10)
            && ((Heap(n), false) in r.told <==>
                  n < |r.posters| && !Blocking(r, n) && FullAttempts(Start(size), events, n) == 1)
  {
    RunKeepsTried(Start(size), events, n, 0);
  }

  /**
   * A caller told of an error has its message freed and never posted. Being told of
   * success means that the message was posted exactly if it was not posted in the blocking
   * form to a mailbox that was full at ten attempts.
   */
  lemma SuccessMeansPostedIff(size: nat, events: seq<Event>, n: nat)
    ensures var r := Run(Start(size), events);
            && ((Heap(n), false) in r.told ==> Heap(n) in r.freed && Heap(n) !in r.posted)
            && ((Heap(n), true) in r.told ==>
                  (Heap(n) in r.posted <==> !(Blocking(r, n) && FullAttempts(Start(size), events, n) == 10)))
  {
    RunKeepsAnswers(Start(size), events);
    LostIff(size, events, n);
    assert Answered(Run(Start(size), events), n);
  }

  /** A callback in the form that does not block is refused and freed at once when the mailbox is full. */
  lemma FullMailboxRefuses(s: State, routine: nat, ctx: nat)
    requires |s.posters| == |s.msgs| && |s.mailbox| >= s.size
    ensures var n := |s.msgs|;
            var r := Step(Step(s, Call(Callback(routine, ctx), false)), Attempt(n));
            && r.told == s.told + [(Heap(n), false)] && r.freed == s.freed + [Heap(n)]
            && r.mailbox == s.mailbox && r.lost == s.lost && r.posted == s.posted
  {
  }

  /** Timers are posted in the blocking form, and only callbacks are refused. */
  ghost predicate TimersBlock(s: State) {
    && |s.posters| == |s.msgs|
    && (forall n | 0 <= n < |s.msgs| && !s.msgs[n].Callback? :: s.posters[n].block)
    && (forall n: nat | (Heap(n), false) in s.told :: n < |s.msgs| && s.msgs[n].Callback?)
  }

  lemma AttemptKeepsTimersBlock(s: State, n: nat)
    requires TimersBlock(s) && n < |s.posters| && s.posters[n].Posting?
    ensures TimersBlock(TryPost(s, n))
  {
    var r := TryPost(s, n);
    assert forall m: nat | (Heap(m), false) in r.told && m != n :: (Heap(m), false) in s.told;
  }

  lemma StepKeepsTimersBlock(s: State, e: Event)
    requires TimersBlock(s)
    ensures TimersBlock(Step(s, e))
  {
    if e.Attempt? && e.n < |s.posters| && s.posters[e.n].Posting? {
      AttemptKeepsTimersBlock(s, e.n);
    }
  }

  /** In every run the caller that sets or cancels a timer is told of success, even if the message is given up. */
  lemma {:induction false} TimersAreNeverRefused(s: State, events: seq<Event>)
    requires TimersBlock(s)
    ensures TimersBlock(Run(s, events))
    decreases |events|
  {
    if events != [] {
      StepKeepsTimersBlock(s, events[0]);
      TimersAreNeverRefused(Step(s, events[0]), events[1..]);
    }
  }

  function Attempts(n: nat, k: nat): (events: seq<Event>)
    ensures |events| == k
  {
    if k == 0 then [] else [Attempt(n)] + Attempts(n, k - 1)
  }

  /** A blocking post that finds the mailbox full ten times gives the message up and reports success. */
  lemma {:induction false} GivenUpAfterTen(s: State, n: nat, k: nat)
    requires n < |s.posters| && 1 <= k <= ATTEMPTS && s.posters[n] == Posting(true, ATTEMPTS - k)
    requires |s.mailbox| >= s.size
    ensures var r := Run(s, Attempts(n, k));
            && r.lost == s.lost + [Heap(n)] && r.told == s.told + [(Heap(n), true)]
            && r.posted == s.posted && r.mailbox == s.mailbox && r.freed == s.freed && r.msgs == s.msgs
    decreases k
  {
    var next := Step(s, Attempt(n));
    assert Attempts(n, k)[1..] == Attempts(n, k - 1);
    if k == 1 {
      assert Run(next, []) == next;
    } else {
      GivenUpAfterTen(next, n, k - 1);
    }
  }

  /** There is such a message, for a mailbox of any size: the one called for when it is full. */
  lemma SuccessCanBeALoss(size: nat, ms: M.u32, h: T.Handler, arg: T.Arg) returns (events: seq<Event>)
    ensures var r := Run(Start(size), events);
            && |r.msgs| == 1 && r.msgs[0] == Timeout(ms, h, arg)
            && (Heap(0), true) in r.told && Heap(0) !in r.posted
  {
    var fill := Fill(size);
    var call := [Call(Timeout(ms, h, arg), false)];
    events := fill + call + Attempts(0, ATTEMPTS);
    RunConcat(Start(size), fill + call, Attempts(0, ATTEMPTS));
    RunConcat(Start(size), fill, call);
    Filled(Start(size), size);
    var full := Run(Start(size), fill);
    assert call[1..] == [];
    var called := Step(full, call[0]);
    assert Run(full, call) == Run(called, []) == called;
    GivenUpAfterTen(called, 0, ATTEMPTS);
  }

  function Fill(k: nat): (events: seq<Event>) {
    if k == 0 then [] else [PostStatic(0)] + Fill(k - 1)
  }

  lemma {:induction false} Filled(s: State, k: nat)
    requires |s.mailbox| + k <= s.size && Heap(0) !in s.posted
    ensures var r := Run(s, Fill(k));
            && |r.mailbox| == |s.mailbox| + k && r.msgs == s.msgs && r.posters == s.posters
            && r.size == s.size && Heap(0) !in r.posted
    decreases k
  {
    if k > 0 {
      assert Fill(k)[0] == PostStatic(0) && Fill(k)[1..] == Fill(k - 1);
      Filled(Step(s, PostStatic(0)), k - 1);
    }
  }

  lemma {:induction false} RunConcat(s: State, a: seq<Event>, b: seq<Event>)
    ensures Run(s, a + b) == Run(Run(s, a), b)
    decreases |a|
  {
    if a == [] {
      assert a + b == b;
    } else {
      assert (a + b)[0] == a[0] && (a + b)[1..] == a[1..] + b;
      RunConcat(Step(s, a[0]), a[1..], b);
    }
  }

  /**
   * What one piece of work does: a callback is called with its context; a timeout sets its timer for as many
   * milliseconds from now as it says, if there is memory; an untimeout cancels the first
   * one that matches. Each does nothing else to timers and calls.
   */
  lemma WorkTakesEffect(s: State, n: nat, room: bool)
    requires s.task == Working(Heap(n)) && n < |s.msgs|
    ensures var t, u := s.timers, Step(s, Work(room)).timers;
            var calls := Step(s, Work(room)).called;
            match s.msgs[n]
            case Callback(routine, ctx) => u == t && calls == s.called + [(routine, ctx)]
            case Timeout(ms, h, arg) =>
              calls == s.called &&
              if room then
                && u.q == T.Insert(t.q, ms, h, arg)
                && u.inserted == t.inserted + [T.Timer(t.clock + ms, h, arg)]
                && u.cancelled == t.cancelled && u.fired == t.fired && u.clock == t.clock
              else u == t
            case Untimeout(h, arg) =>
              && calls == s.called
              && u.q == T.Remove(t.q, h, arg)
              && u.inserted == t.inserted && u.fired == t.fired && u.clock == t.clock
  {
    var es := Commands(s.msgs, FromMailbox(Heap(n), room));
    if es != [] {
      OneEvent(s.timers, es[0]);
      assert es == [es[0]];
    }
  }

  /** All callbacks called by the work done. */
  function AllCalls(msgs: seq<Message>, worked: seq<Deed>): seq<(nat, nat)> {
    if worked == [] then []
    else
      var n := |worked| - 1;
      AllCalls(msgs, worked[..n]) + if worked[n].Direct? then [] else Callbacks(msgs, worked[n].item)
  }

  lemma {:induction false} CallsStay(msgs: seq<Message>, m: Message, worked: seq<Deed>)
    requires OnlyAllocated(msgs, worked)
    ensures AllCalls(msgs + [m], worked) == AllCalls(msgs, worked)
  {
    if worked != [] {
      CallsStay(msgs, m, worked[..|worked| - 1]);
    }
  }

  lemma CallsOfOneMore(msgs: seq<Message>, worked: seq<Deed>, d: Deed)
    ensures AllCalls(msgs, worked + [d])
         == AllCalls(msgs, worked) + if d.Direct? then [] else Callbacks(msgs, d.item)
  {
    assert (worked + [d])[..|worked|] == worked;
  }

  lemma StepKeepsCalls(s: State, e: Event)
    requires OnlyAllocated(s.msgs, s.worked) && s.called == AllCalls(s.msgs, s.worked)
    ensures Step(s, e).called == AllCalls(Step(s, e).msgs, Step(s, e).worked)
  {
    if e.Call? {
      CallsStay(s.msgs, e.m, s.worked);
    } else if e.Work? && s.task.Working? {
      CallsOfOneMore(s.msgs, s.worked, FromMailbox(s.task.item, e.room));
    } else if e.TimerCall? {
      CallsOfOneMore(s.msgs, s.worked, Direct(e.command));
      assert s.called + [] == s.called;
    } else {
      OthersCallNothing(s, e);
    }
  }

  lemma OthersCallNothing(s: State, e: Event)
    requires e.Attempt? || e.PostStatic? || e.Fetch? || e.Release? || (e.Work? && !s.task.Working?)
    ensures var r := Step(s, e);
            r.called == s.called && r.msgs == s.msgs && r.worked == s.worked
  {
  }

  /** The callbacks called are those of the messages worked on, in order and each once. */
  lemma {:induction false} RunKeepsCalls(s: State, events: seq<Event>)
    requires InOrder(s) && s.called == AllCalls(s.msgs, s.worked)
    ensures Run(s, events).called == AllCalls(Run(s, events).msgs, Run(s, events).worked)
    decreases |events|
  {
    if events != [] {
      StepKeepsOrder(s, events[0]);
      StepKeepsCalls(s, events[0]);
      RunKeepsCalls(Step(s, events[0]), events[1..]);
    }
  }

  lemma StaticWorkTakesEffect(s: State, id: nat, room: bool)
    requires s.task == Working(Static(id))
    ensures Step(s, Work(room)).timers == s.timers && Step(s, Work(room)).called == s.called
  {
  }

  lemma TimerCallTakesEffect(s: State, command: T.Event)
    requires !command.Wait?
    ensures Step(s, TimerCall(command)).timers == T.Step(s.timers, command)
  {
    OneEvent(s.timers, command);
  }

  /**
   * A timeout posted through the mailbox, once the task has worked on it with memory to
   * spare, has set its timer: the log holds that command in its place, and it set the timer
   * for so many milliseconds after the clock there.
   */
  lemma SetThroughTheMailbox(size: nat, events: seq<Event>, i: nat, n: nat, ms: M.u32, h: T.Handler, arg: T.Arg)
    returns (before: seq<T.Event>, after: seq<T.Event>, there: T.State, thereafter: T.State)
    requires var r := Run(Start(size), events);
             && i < |r.worked| && r.worked[i] == FromMailbox(Heap(n), true)
             && n < |r.msgs| && r.msgs[n] == Timeout(ms, h, arg)
    ensures var r := Run(Start(size), events);
            && r.history == before + [T.Add(ms, h, arg)] + after
            && NoWaits(before) == AllCommands(r.msgs, r.worked[..i])
    ensures there == T.Run(T.Start(), before)
    ensures thereafter.q == T.Insert(there.q, ms, h, arg)
    ensures thereafter.inserted == there.inserted + [T.Timer(there.clock + ms, h, arg)]
    ensures Run(Start(size), events).timers == T.Run(thereafter, after)
  {
    var r := Run(Start(size), events);
    RunKeepsLogs(Start(size), events);
    TimeoutCommand(r.msgs, n, ms, h, arg);
    before, after := DeedInHistory(r, i, T.Add(ms, h, arg));
    there := T.Run(T.Start(), before);
    thereafter := T.Step(there, T.Add(ms, h, arg));
    AddTakesEffect(there, ms, h, arg);
  }

  lemma TimeoutCommand(msgs: seq<Message>, n: nat, ms: M.u32, h: T.Handler, arg: T.Arg)
    requires n < |msgs| && msgs[n] == Timeout(ms, h, arg)
    ensures Commands(msgs, FromMailbox(Heap(n), true)) == [T.Add(ms, h, arg)]
  {
  }

  lemma AddTakesEffect(t: T.State, ms: M.u32, h: T.Handler, arg: T.Arg)
    ensures var u := T.Step(t, T.Add(ms, h, arg));
            u.q == T.Insert(t.q, ms, h, arg) && u.inserted == t.inserted + [T.Timer(t.clock + ms, h, arg)]
  {
  }

  /** Where the command of a deed stands in the log of all timer events. */
  lemma DeedInHistory(r: State, i: nat, x: T.Event) returns (before: seq<T.Event>, after: seq<T.Event>)
    requires TimersFollow(r) && i < |r.worked| && Commands(r.msgs, r.worked[i]) == [x]
    ensures r.history == before + [x] + after
    ensures NoWaits(before) == AllCommands(r.msgs, r.worked[..i])
    ensures NoWaits(after) == AllCommands(r.msgs, r.worked[i + 1..])
    ensures r.timers == T.Run(T.Step(T.Run(T.Start(), before), x), after)
  {
    CommandsAroundDeed(r.msgs, r.worked, i);
    before, after := SplitHistory(r.history, AllCommands(r.msgs, r.worked[..i]), x,
                                  AllCommands(r.msgs, r.worked[i + 1..]));
    TimersRunThrough(before, x, after);
  }

  /** Without memory a timeout leaves no trace among the commands, nor does any other message but an untimeout. */
  lemma OthersSetNothing(msgs: seq<Message>, l: seq<Deed>, i: nat)
    requires i < |l| && l[i].FromMailbox?
    requires l[i].item.Heap? && l[i].item.n < |msgs| ==>
               msgs[l[i].item.n].Callback? || (msgs[l[i].item.n].Timeout? && !l[i].room)
    ensures AllCommands(msgs, l[..i + 1]) == AllCommands(msgs, l[..i])
  {
    assert l[..i + 1][..i] == l[..i];
    assert AllCommands(msgs, l[..i]) + [] == AllCommands(msgs, l[..i]);
  }

  lemma CommandsAroundDeed(msgs: seq<Message>, l: seq<Deed>, i: nat)
    requires i < |l|
    ensures AllCommands(msgs, l)
         == AllCommands(msgs, l[..i]) + Commands(msgs, l[i]) + AllCommands(msgs, l[i + 1..])
  {
    assert l[..i + 1] == l[..i] + [l[i]];
    assert l == l[..i + 1] + l[i + 1..];
    CommandsConcat(msgs, l[..i + 1], l[i + 1..]);
    assert l[..i + 1][..i] == l[..i];
  }

  /** How many of these deeds set a timer for this handler. */
  function Sets(msgs: seq<Message>, l: seq<Deed>, h: T.Handler, arg: T.Arg): nat {
    if l == [] then 0
    else
      var n := |l| - 1;
      Sets(msgs, l[..n], h, arg) + if SetsTimer(msgs, l[n], h, arg) then 1 else 0
  }

  predicate SetsTimer(msgs: seq<Message>, d: Deed, h: T.Handler, arg: T.Arg) {
    match d
    case Direct(command) => command.Add? && command.h == h && command.arg == arg
    case FromMailbox(item, room) =>
      room && item.Heap? && item.n < |msgs| && msgs[item.n].Timeout? && msgs[item.n].h == h && msgs[item.n].arg == arg
  }

  predicate Cancels(msgs: seq<Message>, d: Deed, h: T.Handler, arg: T.Arg) {
    match d
    case Direct(command) => command == T.Cancel(h, arg)
    case FromMailbox(item, _) => item.Heap? && item.n < |msgs| && msgs[item.n] == Untimeout(h, arg)
  }

  lemma {:induction false} AddsConcat(a: seq<T.Event>, b: seq<T.Event>, h: T.Handler, arg: T.Arg)
    ensures T.Adds(a + b, h, arg) == T.Adds(a, h, arg) + T.Adds(b, h, arg)
  {
    if a == [] {
      assert a + b == b;
    } else {
      assert (a + b)[0] == a[0] && (a + b)[1..] == a[1..] + b;
      AddsConcat(a[1..], b, h, arg);
    }
  }

  lemma AddsOfOne(e: T.Event, h: T.Handler, arg: T.Arg)
    ensures T.Adds([e], h, arg) == if e.Add? && e.h == h && e.arg == arg then 1 else 0
  {
    assert [e][1..] == [];
  }

  lemma {:induction false} AddsAreSets(msgs: seq<Message>, l: seq<Deed>, h: T.Handler, arg: T.Arg)
    ensures T.Adds(AllCommands(msgs, l), h, arg) == Sets(msgs, l, h, arg)
  {
    if l != [] {
      var n := |l| - 1;
      var es := Commands(msgs, l[n]);
      AddsAreSets(msgs, l[..n], h, arg);
      AddsConcat(AllCommands(msgs, l[..n]), es, h, arg);
      if es != [] {
        AddsOfOne(es[0], h, arg);
      }
    }
  }

  lemma {:induction false} AddsOfNoWaits(history: seq<T.Event>, h: T.Handler, arg: T.Arg)
    ensures T.Adds(history, h, arg) == T.Adds(NoWaits(history), h, arg)
  {
    if history != [] {
      var n := |history| - 1;
      var rest, e := history[..n], history[n];
      assert history == rest + [e];
      AddsOfNoWaits(rest, h, arg);
      AddsConcat(rest, [e], h, arg);
      AddsConcat(NoWaits(rest), [e], h, arg);
      AddsOfOne(e, h, arg);
      assert NoWaits(rest) + [] == NoWaits(rest);
    }
  }

  lemma Regroup(x: seq<T.Event>, y: seq<T.Event>, z: seq<T.Event>)
    ensures x + (y + z) == x + y + z
  {
  }

  lemma {:induction false} CommandsConcat(msgs: seq<Message>, a: seq<Deed>, b: seq<Deed>)
    ensures AllCommands(msgs, a + b) == AllCommands(msgs, a) + AllCommands(msgs, b)
  {
    if b == [] {
      assert a + b == a;
    } else {
      var n := |b| - 1;
      assert (a + b)[..|a + b| - 1] == a + b[..n];
      CommandsConcat(msgs, a, b[..n]);
      Regroup(AllCommands(msgs, a), AllCommands(msgs, b[..n]), Commands(msgs, b[n]));
    }
  }

  /** Where a command stands in the log of all timer events. */
  lemma {:induction false} SplitHistory(history: seq<T.Event>, p: seq<T.Event>, x: T.Event, c: seq<T.Event>)
    returns (before: seq<T.Event>, after: seq<T.Event>)
    requires NoWaits(history) == p + [x] + c
    ensures history == before + [x] + after && NoWaits(before) == p && NoWaits(after) == c
  {
    var n := |history| - 1;
    var rest, e := history[..n], history[n];
    assert history == rest + [e];
    if e.Wait? {
      assert NoWaits(rest) + [] == NoWaits(rest);
      before, after := SplitHistory(rest, p, x, c);
      NoWaitsOfOneMore(after, e);
      after := after + [e];
    } else if c == [] {
      assert NoWaits(rest) + [e] == p + [x] + [] == p + [x];
      LastOf(NoWaits(rest), e, p, x);
      before, after := rest, [];
    } else {
      var m := |c| - 1;
      assert c == c[..m] + [c[m]];
      assert NoWaits(rest) + [e] == (p + [x] + c[..m]) + [c[m]];
      LastOf(NoWaits(rest), e, p + [x] + c[..m], c[m]);
      before, after := SplitHistory(rest, p, x, c[..m]);
      NoWaitsOfOneMore(after, e);
      after := after + [e];
    }
  }

  lemma LastOf(a: seq<T.Event>, x: T.Event, b: seq<T.Event>, y: T.Event)
    requires a + [x] == b + [y]
    ensures a == b && x == y
  {
    assert |a| == |b| && (a + [x])[|a|] == x && (b + [y])[|b|] == y;
    assert (a + [x])[..|a|] == a && (b + [y])[..|b|] == b;
  }

  lemma {:induction false} AddsAfter(msgs: seq<Message>, l: seq<Deed>, history: seq<T.Event>,
                                     h: T.Handler, arg: T.Arg)
    requires NoWaits(history) == AllCommands(msgs, l)
    requires forall i | 0 <= i < |l| :: !SetsTimer(msgs, l[i], h, arg)
    ensures forall e | e in history && e.Add? :: e.h != h || e.arg != arg
  {
    NoSets(msgs, l, h, arg);
    AddsAreSets(msgs, l, h, arg);
    AddsOfNoWaits(history, h, arg);
    NoAdds(history, h, arg);
  }

  lemma {:induction false} NoSets(msgs: seq<Message>, l: seq<Deed>, h: T.Handler, arg: T.Arg)
    requires forall i | 0 <= i < |l| :: !SetsTimer(msgs, l[i], h, arg)
    ensures Sets(msgs, l, h, arg) == 0
  {
    if l != [] {
      NoSets(msgs, l[..|l| - 1], h, arg);
    }
  }

  lemma {:induction false} NoAdds(history: seq<T.Event>, h: T.Handler, arg: T.Arg)
    requires T.Adds(history, h, arg) == 0
    ensures forall e | e in history && e.Add? :: e.h != h || e.arg != arg
  {
    if history != [] {
      NoAdds(history[1..], h, arg);
      assert history == [history[0]] + history[1..];
    }
  }

  /**
   * A timer set at most once and then cancelled, by messages through the mailbox or by
   * direct calls: once the task has cancelled it, the handler runs no more, provided
   * neither a further message nor a direct call sets that timer.
   */
  lemma CancelledThroughTheMailbox(size: nat, events: seq<Event>, i: nat, h: T.Handler, arg: T.Arg)
    returns (before: seq<T.Event>, after: seq<T.Event>)
    requires var r := Run(Start(size), events);
             && i < |r.worked| && Cancels(r.msgs, r.worked[i], h, arg)
             && Sets(r.msgs, r.worked[..i], h, arg) <= 1
             && forall j | i < j < |r.worked| :: !SetsTimer(r.msgs, r.worked[j], h, arg)
    ensures var r := Run(Start(size), events);
            var cancelled := T.Step(T.Run(T.Start(), before), T.Cancel(h, arg));
            && r.history == before + [T.Cancel(h, arg)] + after
            && NoWaits(before) == AllCommands(r.msgs, r.worked[..i])
            && r.timers == T.Run(cancelled, after)
            && cancelled.fired <= r.timers.fired
            && forall j | |cancelled.fired| <= j < |r.timers.fired| ::
                 r.timers.fired[j].h != h || r.timers.fired[j].arg != arg
  {
    var r := Run(Start(size), events);
    RunKeepsLogs(Start(size), events);
    before, after := DeedInHistory(r, i, T.Cancel(h, arg));
    NothingAfterCancel(r.msgs, r.worked[..i], r.worked[i + 1..], before, after, h, arg);
  }

  lemma NothingAfterCancel(msgs: seq<Message>, first: seq<Deed>, rest: seq<Deed>,
                           before: seq<T.Event>, after: seq<T.Event>, h: T.Handler, arg: T.Arg)
    requires NoWaits(before) == AllCommands(msgs, first) && NoWaits(after) == AllCommands(msgs, rest)
    requires Sets(msgs, first, h, arg) <= 1
    requires forall j | 0 <= j < |rest| :: !SetsTimer(msgs, rest[j], h, arg)
    ensures var cancelled := T.Step(T.Run(T.Start(), before), T.Cancel(h, arg));
            var end := T.Run(cancelled, after);
            && cancelled.fired <= end.fired
            && forall j | |cancelled.fired| <= j < |end.fired| :: end.fired[j].h != h || end.fired[j].arg != arg
  {
    AddsAreSets(msgs, first, h, arg);
    AddsOfNoWaits(before, h, arg);
    AddsAfter(msgs, rest, after, h, arg);
    T.CancelledTimerNeverRuns(T.Start(), before, after, h, arg);
  }

  lemma TimersRunThrough(before: seq<T.Event>, x: T.Event, after: seq<T.Event>)
    ensures T.Run(T.Start(), before + [x] + after) == T.Run(T.Step(T.Run(T.Start(), before), x), after)
  {
    TimersRunOn(T.Start(), before + [x], after);
    TimersRunOn(T.Start(), before, [x]);
    OneEvent(T.Run(T.Start(), before), x);
  }
}
