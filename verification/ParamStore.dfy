/**
 * The parameter store: a working copy and a shadow in RAM, and two flash partitions
 * that are rewritten in turn. Power may be lost before, inside or after any write.
 */
module ParamStore {

  const ID_ALL: int := -1
  const ID_DEBUG_MODE: int := 17
  const ID_UNUSED: int := 25
  const ID_AUTO_TRIGGER_PERIOD: int := 28
  const ID_MAX: int := 51
  const COUNT_LIMIT: nat := 0x1_0000

  /** One value for each id; the unused id stands for the fields no id names. */
  type Params = p: seq<int> | |p| == ID_MAX witness seq(ID_MAX, i => 0)

  datatype Record = Record(partition: nat, count: nat, params: Params)

  /** A partition holds a record that passes the magic and CRC tests, or does not. */
  datatype Slot = Damaged | Good(rec: Record)

  type Flash = s: seq<Slot> | |s| == 2 witness [Damaged, Damaged]

  /**
   * How one write to flash ends. Unverified is a complete record that could not be read
   * back for the comparison, so that the caller is told of an error all the same.
   */
  datatype Fate = Completes | Unverified | IoFails(torn: bool) | LostBefore | LostTorn | LostAfter {
    predicate PowerLost() {
      LostBefore? || LostTorn? || LostAfter?
    }

    predicate Lands() {
      Completes? || Unverified? || LostAfter?
    }

    predicate Tears() {
      LostTorn? || (IoFails? && torn)
    }
  }

  datatype Status = Ok | EInvalid | EIo | EPerm | EInvalidId | PowerGone

  datatype World =
    | Off(slots: Flash)
    | On(sram: Params, shadow: Record, slots: Flash)

  predicate Handled(id: int) {
    id == ID_ALL || (0 <= id < ID_MAX && id != ID_UNUSED)
  }

  predicate InRange(id: int) {
    ID_ALL <= id < ID_MAX
  }

  /** The fields of src that a write of this id carries over to dest. */
  function CopyFields(id: int, src: Params, dest: Params): Params
    requires Handled(id)
  {
    if id == ID_ALL then src
    else if id == ID_AUTO_TRIGGER_PERIOD then
      dest[id := src[id]][ID_DEBUG_MODE := src[ID_DEBUG_MODE]]
    else dest[id := src[id]]
  }

  function SlotAfter(before: Slot, rec: Record, fate: Fate): Slot {
    if fate.Lands() then Good(rec) else if fate.Tears() then Damaged else before
  }

  /** The record the next write of this id puts into flash. */
  function NextRecord(sram: Params, shadow: Record, id: int, count: int, partition: int): Record
    requires Handled(id) && count < COUNT_LIMIT && partition < 2
  {
    Record(
      if partition < 0 then (shadow.partition + 1) % 2 else partition,
      if count < 0 then (shadow.count + 1) % COUNT_LIMIT else count,
      CopyFields(id, sram, shadow.params))
  }

  /** param_to_flash: the shadow changes first, then the partition it names is written. */
  function Commit(w: World, id: int, count: int, partition: int, fate: Fate): (World, Status)
    requires w.On? && count < COUNT_LIMIT && partition < 2
  {
    if !InRange(id) then (w, EInvalid)
    else if !Handled(id) then (w, EInvalidId)
    else
      var rec := NextRecord(w.sram, w.shadow, id, count, partition);
      var slots: Flash := w.slots[rec.partition := SlotAfter(w.slots[rec.partition], rec, fate)];
      if fate.PowerLost() then (Off(slots), PowerGone)
      else (On(w.sram, rec, slots), if fate.Completes? then Ok else EIo)
  }

  /** The record tls_param_init settles on: partition 1 wins only with a larger count. */
  function Newest(slots: Flash): (r: Slot)
  {
    if slots[0].Damaged? then slots[1]
    else if slots[1].Good? && slots[0].rec.count < slots[1].rec.count then slots[1]
    else slots[0]
  }

  /** The parameters a reboot would come up with. */
  function Loaded(slots: Flash, defaults: Params): Params
  {
    if Newest(slots).Good? then Newest(slots).rec.params else defaults
  }

  /** tls_param_init, with the fates of the writes it makes. */
  function Boot(slots: Flash, defaults: Params, f0: Fate, f1: Fate): (World, Status)
  {
    if Newest(slots).Damaged? then
      var first := Commit(On(defaults, Blank(), slots), ID_ALL, 1, 0, f0);
      if first.1 != Ok then first else Commit(first.0, ID_ALL, 1, 1, f1)
    else
      var up := On(Newest(slots).rec.params, Newest(slots).rec, slots);
      if slots[0].Damaged? then Commit(up, ID_ALL, -1, 0, f0)
      else if slots[1].Damaged? then Commit(up, ID_ALL, -1, 1, f0)
      else (up, Ok)
  }

  function Blank(): Record {
    Record(0, 0, seq(ID_MAX, i => 0))
  }

  /** What the outside does to the store. */
  datatype Event =
    | PowerOn(f0: Fate, f1: Fate)
    | PowerLoss
    | Set(id: int, value: Params, toFlash: bool, fate: Fate)
    | ToFlash(id: int, fate: Fate)

  function Step(w: World, ev: Event, defaults: Params): (World, Status)
  {
    match (w, ev)
    case (Off(slots), PowerOn(f0, f1)) => Boot(slots, defaults, f0, f1)
    case (Off(_), _) => (w, PowerGone)
    case (On(_, _, _), PowerOn(_, _)) => (w, EPerm)
    case (On(_, _, slots), PowerLoss) => (Off(slots), PowerGone)
    case (On(sram, shadow, slots), Set(id, value, toFlash, fate)) =>
      if !InRange(id) then (w, EInvalid)
      else if !Handled(id) then (w, EInvalidId)
      else
        var updated := On(PutField(id, value, sram), shadow, slots);
        if toFlash then Commit(updated, id, -1, -1, fate) else (updated, Ok)
    case (On(sram, shadow, slots), ToFlash(id, fate)) =>
      if id == ID_ALL && sram == shadow.params then (w, Ok) else Commit(w, id, -1, -1, fate)
  }

  /** tls_param_set stores just the field the id names. */
  function PutField(id: int, value: Params, sram: Params): Params
    requires Handled(id)
  {
    if id == ID_ALL then value else sram[id := value[id]]
  }

  function Run(w: World, events: seq<Event>, defaults: Params): World
    decreases |events|
  {
    if events == [] then w
    else
      var next := Step(w, events[0], defaults).0;
      Run(next, events[1..], defaults)
  }

  /**
   * What flash looks like at any moment: records lie in the partition they name, and
   * two records with the same count carry the same parameters.
   */
  ghost predicate WellFormed(slots: Flash) {
    && (forall i | 0 <= i < 2 && slots[i].Good? ::
          slots[i].rec.partition == i && slots[i].rec.count < COUNT_LIMIT)
    && (slots[0].Good? && slots[1].Good? && slots[0].rec.count == slots[1].rec.count ==>
          slots[0].rec.params == slots[1].rec.params)
  }

  /**
   * The shadow is in flash, and the other partition holds a record that is no newer or
   * has the same parameters.
   */
  ghost predicate InSync(w: World) {
    && w.On?
    && WellFormed(w.slots)
    && w.shadow.partition < 2
    && w.slots[w.shadow.partition] == Good(w.shadow)
    && w.slots[1 - w.shadow.partition].Good?
    && NoThreat(w.slots[1 - w.shadow.partition].rec, w.shadow)
  }

  /** Beside the record kept, the other cannot bring up other parameters. */
  ghost predicate NoThreat(other: Record, keep: Record) {
    other.count <= keep.count || other.params == keep.params
  }

  /** The next record is newer than the shadow, or changes nothing. */
  ghost predicate Fits(sram: Params, shadow: Record, id: int)
    requires Handled(id)
  {
    shadow.count + 1 < COUNT_LIMIT || CopyFields(id, sram, shadow.params) == shadow.params
  }

  /** Reading flash back gives the shadow, so reads "from flash" may use the shadow. */
  lemma ShadowIsWhatARebootLoads(w: World, defaults: Params)
    requires InSync(w)
    ensures Loaded(w.slots, defaults) == w.shadow.params
  {
  }

  /** A commit in step leaves alone the partition that holds what a reboot would load. */
  lemma CommitTargetsTheOlderPartition(w: World, id: int, fate: Fate, defaults: Params)
    requires InSync(w) && Handled(id)
    ensures Commit(w, id, -1, -1, fate).0.slots[w.shadow.partition] == Good(w.shadow)
    ensures w.shadow.params == Loaded(w.slots, defaults)
  {
    ShadowIsWhatARebootLoads(w, defaults);
  }

  /**
   * Writing a record beside the one kept, newer than it or with the same parameters: until
   * it is complete a reboot loads the kept parameters, from then on the new ones.
   */
  lemma WriteBeside(slots: Flash, keep: Record, rec: Record, fate: Fate, defaults: Params)
    requires WellFormed(slots)
    requires keep.partition < 2 && slots[keep.partition] == Good(keep)
    requires var other := slots[1 - keep.partition];
             other.Damaged? || NoThreat(other.rec, keep)
    requires rec.partition == 1 - keep.partition && NoThreat(keep, rec) && keep.count != rec.count < COUNT_LIMIT
    ensures var after: Flash := slots[rec.partition := SlotAfter(slots[rec.partition], rec, fate)];
            && WellFormed(after)
            && after[keep.partition] == Good(keep)
            && Loaded(after, defaults) == if fate.Lands() then rec.params else keep.params
  {
    var p, q := keep.partition, rec.partition;
    var after: Flash := slots[q := SlotAfter(slots[q], rec, fate)];
    assert after[p] == Good(keep);
    if fate.Lands() {
      assert after[q] == Good(rec);
    } else {
      assert after[q] == Damaged || after[q] == slots[q];
    }
  }

  /** Old or new, never anything else, unless the count wraps and something changes. */
  lemma CommitIsAtomic(w: World, id: int, fate: Fate, defaults: Params)
    requires InSync(w) && Handled(id) && Fits(w.sram, w.shadow, id)
    ensures var (next, status) := Commit(w, id, -1, -1, fate);
            && WellFormed(next.slots)
            && Loaded(next.slots, defaults)
               == (if fate.Lands() then CopyFields(id, w.sram, Loaded(w.slots, defaults))
                   else Loaded(w.slots, defaults))
            && (status == Ok ==> InSync(next))
            && (next.On? ==> next.sram == w.sram)
  {
    var rec := NextRecord(w.sram, w.shadow, id, -1, -1);
    ShadowIsWhatARebootLoads(w, defaults);
    WriteBeside(w.slots, w.shadow, rec, fate, defaults);
  }

  /**
   * At the largest count the u16 wraps to 0 and the record written is older than the
   * one it replaces: a commit that completes survives a reboot exactly when the count
   * was below the limit, or when it changes nothing.
   */
  lemma CommitSurvivesRebootIff(w: World, id: int, defaults: Params)
    requires InSync(w) && Handled(id)
    ensures var (next, status) := Commit(w, id, -1, -1, Completes);
            && status == Ok
            && (Loaded(next.slots, defaults) == next.shadow.params
                <==> (w.shadow.count + 1 < COUNT_LIMIT || next.shadow.params == w.shadow.params))
  {
    ShadowAfterCommitIff(w, id, Completes, defaults);
  }

  /**
   * Whatever a commit answers, the shadow is what a reboot would load exactly when the
   * record landed below the largest count, or when it changes nothing.
   */
  lemma ShadowAfterCommitIff(w: World, id: int, fate: Fate, defaults: Params)
    requires InSync(w) && Handled(id) && !fate.PowerLost()
    ensures var next := Commit(w, id, -1, -1, fate).0;
            Loaded(next.slots, defaults) == next.shadow.params
            <==> ((fate.Lands() && w.shadow.count + 1 < COUNT_LIMIT) || next.shadow.params == w.shadow.params)
  {
  }

  /**
   * A complete record, even if the answer is EIO, leaves the store in step exactly when it
   * landed below the largest count, or changes nothing.
   */
  lemma LandedStaysInStepIff(w: World, id: int, fate: Fate)
    requires InSync(w) && Handled(id) && fate.Lands() && !fate.PowerLost()
    ensures InSync(Commit(w, id, -1, -1, fate).0) <==> Fits(w.sram, w.shadow, id)
  {
  }

  /** The ids that calls accept: -1 for everything, and 0 to 50 except 25. */
  lemma HandledIds(id: int)
    ensures Handled(id) <==> id == -1 || (0 <= id < 51 && id != 25)
    ensures InRange(id) <==> -1 <= id < 51
  {
  }

  /** A call with another id is refused and changes nothing, flash included. */
  lemma OtherIdsAreRefused(w: World, id: int, value: Params, toFlash: bool, fate: Fate, defaults: Params)
    requires w.On? && !Handled(id)
    ensures Step(w, Set(id, value, toFlash, fate), defaults) == (w, if id == 25 then EInvalidId else EInvalid)
    ensures Step(w, ToFlash(id, fate), defaults) == (w, if id == 25 then EInvalidId else EInvalid)
  {
  }

  /** What is in a partition after each way a write can end. */
  lemma WhatAWriteLeaves(before: Slot, rec: Record)
    ensures SlotAfter(before, rec, Completes) == Good(rec)
    ensures SlotAfter(before, rec, Unverified) == Good(rec)
    ensures SlotAfter(before, rec, LostAfter) == Good(rec)
    ensures SlotAfter(before, rec, LostBefore) == before && SlotAfter(before, rec, IoFails(false)) == before
    ensures SlotAfter(before, rec, LostTorn) == Damaged && SlotAfter(before, rec, IoFails(true)) == Damaged
  {
  }

  /** What the caller of a commit is told, if the power stays on. */
  lemma WhatTheCallerIsTold(w: World, id: int, fate: Fate)
    requires w.On? && Handled(id)
    ensures var (next, status) := Commit(w, id, -1, -1, fate);
            && (status == Ok <==> fate == Completes)
            && (status == EIo <==> fate == Unverified || fate.IoFails?)
            && (next.On? <==> fate != LostBefore && fate != LostTorn && fate != LostAfter)
  {
  }

  /** Partitions take turns, and counts go up by one from 0 to 65535 and round to 0. */
  lemma RecordsTakeTurns(sram: Params, shadow: Record, id: int)
    requires Handled(id) && shadow.partition < 2 && shadow.count < 65536
    ensures var rec := NextRecord(sram, shadow, id, -1, -1);
            && rec.partition == 1 - shadow.partition
            && rec.count == if shadow.count == 65535 then 0 else shadow.count + 1
  {
  }

  /** Storing one field stores the value given for it, and no other; -1 stores all. */
  lemma PutFieldStores(id: int, value: Params, sram: Params)
    requires Handled(id)
    ensures id == -1 ==> PutField(id, value, sram) == value
    ensures id != -1 ==> PutField(id, value, sram)[id] == value[id]
    ensures id != -1 ==> forall k | 0 <= k < 51 && k != id :: PutField(id, value, sram)[k] == sram[k]
  {
  }

  /** A set that answers Ok has stored that value, and only that, in the working copy. */
  lemma SetStores(w: World, id: int, value: Params, toFlash: bool, fate: Fate, defaults: Params)
    requires w.On? && Step(w, Set(id, value, toFlash, fate), defaults).1 == Ok
    ensures var next := Step(w, Set(id, value, toFlash, fate), defaults).0;
            && next.On?
            && (id == -1 ==> next.sram == value)
            && (id != -1 ==> 0 <= id < 51 && next.sram[id] == value[id])
            && (id != -1 ==> forall k | 0 <= k < 51 && k != id :: next.sram[k] == w.sram[k])
            && (!toFlash ==> next.slots == w.slots && next.shadow == w.shadow)
  {
    if Handled(id) {
      PutFieldStores(id, value, w.sram);
    }
  }

  /**
   * A set of one field that goes to flash and answers Ok: after the power has gone and come
   * back the field holds the value given, and every other what it held, the debug mode
   * (17) excepted when the field is the auto-trigger period (28).
   */
  lemma SetSurvivesReboot(w: World, id: int, value: Params, f0: Fate, f1: Fate, defaults: Params)
    requires InSync(w) && Handled(id) && id != -1 && w.shadow.count < 65535
    ensures var events := [Set(id, value, true, Completes), PowerLoss, PowerOn(f0, f1)];
            var before, up := Loaded(w.slots, defaults), Run(w, events, defaults);
            && Step(w, events[0], defaults).1 == Ok
            && Loaded(up.slots, defaults)[id] == value[id]
            && (forall k | 0 <= k < 51 && k != id && !(id == 28 && k == 17) ::
                  Loaded(up.slots, defaults)[k] == before[k])
            && (up.On? ==> up.sram == Loaded(up.slots, defaults))
  {
    var events := [Set(id, value, true, Completes), PowerLoss, PowerOn(f0, f1)];
    var put := On(PutField(id, value, w.sram), w.shadow, w.slots);
    PutFieldStores(id, value, w.sram);
    CommitIsAtomic(put, id, Completes, defaults);
    CopyKeepsOtherFieldsIff(id, put.sram, Loaded(w.slots, defaults));
    CopyAround(id, put.sram, Loaded(w.slots, defaults));
    var next := Step(w, events[0], defaults).0;
    BootKeepsLoaded(next.slots, defaults, f0, f1);
    ThreeSteps(w, events, defaults);
  }

  /** A set of everything that goes to flash and answers Ok comes back whole. */
  lemma SetAllSurvivesReboot(w: World, value: Params, f0: Fate, f1: Fate, defaults: Params)
    requires InSync(w) && w.shadow.count < 65535
    ensures var events := [Set(-1, value, true, Completes), PowerLoss, PowerOn(f0, f1)];
            && Step(w, events[0], defaults).1 == Ok
            && Loaded(Run(w, events, defaults).slots, defaults) == value
  {
    var events := [Set(-1, value, true, Completes), PowerLoss, PowerOn(f0, f1)];
    CommitIsAtomic(On(value, w.shadow, w.slots), -1, Completes, defaults);
    var next := Step(w, events[0], defaults).0;
    BootKeepsLoaded(next.slots, defaults, f0, f1);
    ThreeSteps(w, events, defaults);
  }

  lemma CopyAround(id: int, src: Params, dest: Params)
    requires Handled(id) && id != -1
    ensures forall k | 0 <= k < 51 && k != id && !(id == 28 && k == 17) :: CopyFields(id, src, dest)[k] == dest[k]
  {
  }

  /** A write carries over the field it names and, unless that is the auto-trigger period, no other. */
  lemma CopyKeepsOtherFieldsIff(id: int, src: Params, dest: Params)
    requires Handled(id) && id != ID_ALL
    ensures CopyFields(id, src, dest)[id] == src[id]
    ensures (forall k | 0 <= k < ID_MAX && k != id :: CopyFields(id, src, dest)[k] == dest[k])
            <==> (id != ID_AUTO_TRIGGER_PERIOD || src[ID_DEBUG_MODE] == dest[ID_DEBUG_MODE])
  {
    var copied := CopyFields(id, src, dest);
    if id == ID_AUTO_TRIGGER_PERIOD {
      assert copied[ID_DEBUG_MODE] == src[ID_DEBUG_MODE];
    }
  }

  /**
   * So a commit of one id changes no other field in flash exactly when the id is not the
   * auto-trigger period, or the debug mode in use is the one already there.
   */
  lemma CommitKeepsOtherFieldsIff(w: World, id: int, defaults: Params)
    requires InSync(w) && Handled(id) && id != ID_ALL && w.shadow.count + 1 < COUNT_LIMIT
    ensures var before, after := Loaded(w.slots, defaults), Loaded(Commit(w, id, -1, -1, Completes).0.slots, defaults);
            (forall k | 0 <= k < ID_MAX && k != id :: after[k] == before[k])
            <==> (id != ID_AUTO_TRIGGER_PERIOD || w.sram[ID_DEBUG_MODE] == before[ID_DEBUG_MODE])
  {
    CommitIsAtomic(w, id, Completes, defaults);
    CopyKeepsOtherFieldsIff(id, w.sram, Loaded(w.slots, defaults));
  }

  /**
   * A debug mode set for this session only, and then an auto-trigger period set in flash:
   * after a reboot the debug mode is there too.
   */
  lemma AutoTriggerCommitsDebugMode(slots: Flash, defaults: Params, debug: Params, period: Params)
    returns (events: seq<Event>)
    requires slots[0].Good? && slots[1].Good? && WellFormed(slots)
    requires Newest(slots).rec.count + 1 < COUNT_LIMIT
    requires debug[ID_DEBUG_MODE] != Loaded(slots, defaults)[ID_DEBUG_MODE]
    ensures events == [PowerOn(Completes, Completes), Set(ID_DEBUG_MODE, debug, false, Completes),
                       Set(ID_AUTO_TRIGGER_PERIOD, period, true, Completes)]
    ensures Loaded(Run(Off(slots), events, defaults).slots, defaults)[ID_DEBUG_MODE] == debug[ID_DEBUG_MODE]
  {
    events := [PowerOn(Completes, Completes), Set(ID_DEBUG_MODE, debug, false, Completes),
               Set(ID_AUTO_TRIGGER_PERIOD, period, true, Completes)];
    BootKeepsLoaded(slots, defaults, Completes, Completes);
    var up := Step(Off(slots), events[0], defaults).0;
    var set1 := Step(up, events[1], defaults).0;
    var set2 := Step(set1, events[2], defaults).0;
    CommitIsAtomic(On(PutField(ID_AUTO_TRIGGER_PERIOD, period, set1.sram), set1.shadow, set1.slots),
                   ID_AUTO_TRIGGER_PERIOD, Completes, defaults);
    ThreeSteps(Off(slots), events, defaults);
  }

  lemma ThreeSteps(w: World, events: seq<Event>, defaults: Params)
    requires |events| == 3
    ensures Run(w, events, defaults)
         == Step(Step(Step(w, events[0], defaults).0, events[1], defaults).0, events[2], defaults).0
  {
    var a := Step(w, events[0], defaults).0;
    var b := Step(a, events[1], defaults).0;
    assert events[1..][1..] == events[2..] && events[2..][1..] == [];
    assert Run(b, events[2..], defaults) == Run(Step(b, events[2], defaults).0, [], defaults);
  }

  /** Recovery loads what was there, whatever power loss does to its repairs. */
  lemma BootKeepsLoaded(slots: Flash, defaults: Params, f0: Fate, f1: Fate)
    requires WellFormed(slots)
    ensures var (next, status) := Boot(slots, defaults, f0, f1);
            && WellFormed(next.slots)
            && Loaded(next.slots, defaults) == Loaded(slots, defaults)
            && (next.On? ==> next.sram == Loaded(slots, defaults))
            && (status == Ok ==> InSync(next))
  {
    if Newest(slots).Damaged? {
      BootFromNothing(slots, defaults, f0, f1);
    } else if slots[0].Damaged? {
      RepairKeepsLoaded(slots, 0, f0, defaults);
    } else if slots[1].Damaged? {
      RepairKeepsLoaded(slots, 1, f0, defaults);
    }
  }

  /** Rewriting the one damaged partition, even with a count that wraps to 0. */
  lemma RepairKeepsLoaded(slots: Flash, i: int, fate: Fate, defaults: Params)
    requires WellFormed(slots)
    requires 0 <= i < 2 && slots[i].Damaged? && slots[1 - i].Good?
    ensures var keep := slots[1 - i].rec;
            var (next, status) := Commit(On(keep.params, keep, slots), ID_ALL, -1, i, fate);
            && WellFormed(next.slots)
            && Loaded(next.slots, defaults) == Loaded(slots, defaults) == keep.params
            && (next.On? ==> next.sram == keep.params)
            && (status == Ok ==> InSync(next))
  {
    var keep := slots[1 - i].rec;
    WriteBeside(slots, keep, NextRecord(keep.params, keep, ID_ALL, -1, i), fate, defaults);
  }

  lemma BootFromNothing(slots: Flash, defaults: Params, f0: Fate, f1: Fate)
    requires slots[0].Damaged? && slots[1].Damaged?
    ensures var (next, status) := Boot(slots, defaults, f0, f1);
            && WellFormed(next.slots)
            && Loaded(next.slots, defaults) == defaults
            && (next.On? ==> next.sram == defaults)
            && (status == Ok ==> InSync(next))
  {
    var a, b := Record(0, 1, defaults), Record(1, 1, defaults);
    var mid := slots[0 := SlotAfter(slots[0], a, f0)];
    if f0.Completes? {
      var after := mid[1 := SlotAfter(mid[1], b, f1)];
      assert after[0] == Good(a) && (after[1] == Damaged || after[1] == Good(b));
    } else {
      assert mid[1] == Damaged && (mid[0] == Damaged || mid[0] == Good(a));
    }
  }

  /** Start-up from nothing, and a reset, put the defaults into both partitions, each counted 1. */
  lemma DefaultsInBoth(w: World, slots: Flash, defaults: Params)
    ensures var both := [Good(Record(0, 1, defaults)), Good(Record(1, 1, defaults))];
            && (slots[0].Damaged? && slots[1].Damaged? ==>
                  Boot(slots, defaults, Completes, Completes) == (On(defaults, Record(1, 1, defaults), both), Ok))
            && (w.On? ==>
                  ToDefault(w, defaults, Completes, Completes) == (On(defaults, Record(1, 1, defaults), both), Ok))
  {
    if slots[0].Damaged? && slots[1].Damaged? {
      var s1: Flash := slots[0 := Good(Record(0, 1, defaults))];
      assert s1[1 := Good(Record(1, 1, defaults))] == [Good(Record(0, 1, defaults)), Good(Record(1, 1, defaults))];
    }
    if w.On? {
      var s1: Flash := w.slots[0 := Good(Record(0, 1, defaults))];
      assert s1[1 := Good(Record(1, 1, defaults))] == [Good(Record(0, 1, defaults)), Good(Record(1, 1, defaults))];
    }
  }

  /** A repair copies the record that was found, under the next count. */
  lemma RepairCopies(slots: Flash, i: int, defaults: Params)
    requires 0 <= i < 2 && slots[i].Damaged? && slots[1 - i].Good?
    ensures var found := slots[1 - i].rec;
            var copy := Record(i, if found.count == 65535 then 0 else (found.count + 1) % 65536, found.params);
            Boot(slots, defaults, Completes, Completes) == (On(found.params, copy, slots[i := Good(copy)]), Ok)
  {
  }

  /**
   * The store as its callers see it: the parameters a reboot would load, and the
   * working copy while the power is on.
   */
  datatype Register = Register(durable: Params, working: Option)
  datatype Option = None | Some(params: Params)

  ghost function View(w: World, defaults: Params): Register {
    Register(Loaded(w.slots, defaults), if w.On? then Some(w.sram) else None)
  }

  /**
   * One event on an ideal register, where a commit happens entirely or not at all.
   * alive tells whether the power is still on afterwards.
   */
  ghost function Ideal(r: Register, ev: Event, alive: bool): Register {
    match ev
    case PowerOn(_, _) =>
      if !alive then r.(working := None)
      else if r.working.None? then r.(working := Some(r.durable)) else r
    case PowerLoss => r.(working := None)
    case Set(id, value, toFlash, fate) =>
      if r.working.None? || !Handled(id) then r
      else
        var sram := PutField(id, value, r.working.params);
        var landed := if toFlash && fate.Lands() then CopyFields(id, sram, r.durable) else r.durable;
        Register(landed, if alive then Some(sram) else None)
    case ToFlash(id, fate) =>
      if r.working.None? || !Handled(id) then r
      else
        var landed := if fate.Lands() then CopyFields(id, r.working.params, r.durable) else r.durable;
        Register(landed, if alive then r.working else None)
  }

  ghost function IdealRun(r: Register, events: seq<Event>, alive: seq<bool>): Register
    requires |alive| == |events|
    decreases |events|
  {
    if events == [] then r
    else IdealRun(Ideal(r, events[0], alive[0]), events[1..], alive[1..])
  }

  /** After each event of a run, whether the power is on. */
  ghost function Alive(w: World, events: seq<Event>, defaults: Params): (a: seq<bool>)
    ensures |a| == |events|
    decreases |events|
  {
    if events == [] then []
    else
      var next := Step(w, events[0], defaults).0;
      [next.On?] + Alive(next, events[1..], defaults)
  }

  /** The caller asks for the flash to be brought up to date. */
  predicate WritesFlash(w: World, ev: Event) {
    match ev
    case PowerOn(_, _) => false
    case PowerLoss => false
    case Set(id, _, toFlash, _) => w.On? && Handled(id) && toFlash
    case ToFlash(id, _) => w.On? && Handled(id)
  }

  /** The record this takes, if any, does not wrap the count, or changes nothing. */
  ghost predicate WriteFits(w: World, ev: Event)
    requires WritesFlash(w, ev)
  {
    if ev.Set? then Fits(PutField(ev.id, ev.value, w.sram), w.shadow, ev.id) else Fits(w.sram, w.shadow, ev.id)
  }

  /**
   * The two things a caller has to mind: after a call has returned EIO nothing more is
   * written until the power has been off, and a record that changes something is written
   * only while the count is below its limit. Reboots are free.
   */
  ghost predicate Careful(w: World, trusted: bool, events: seq<Event>, defaults: Params)
    decreases |events|
  {
    events == [] ||
    var (next, status) := Step(w, events[0], defaults);
    && (WritesFlash(w, events[0]) ==> trusted && WriteFits(w, events[0]))
    && Careful(next, TrustedAfter(w, trusted, status), events[1..], defaults)
  }

  ghost function TrustedAfter(w: World, trusted: bool, status: Status): bool {
    if w.Off? then status == Ok else trusted && status != EIo
  }

  ghost function TrustedAtEnd(w: World, trusted: bool, events: seq<Event>, defaults: Params): bool
    decreases |events|
  {
    if events == [] then trusted
    else
      var (next, status) := Step(w, events[0], defaults);
      TrustedAtEnd(next, TrustedAfter(w, trusted, status), events[1..], defaults)
  }

  ghost predicate Inv(w: World, trusted: bool) {
    && WellFormed(w.slots)
    && (w.On? && trusted ==> InSync(w))
  }

  lemma StepRefines(w: World, trusted: bool, ev: Event, defaults: Params)
    requires Inv(w, trusted) && Careful(w, trusted, [ev], defaults)
    ensures var (next, status) := Step(w, ev, defaults);
            && Inv(next, TrustedAfter(w, trusted, status))
            && View(next, defaults) == Ideal(View(w, defaults), ev, next.On?)
  {
    match ev
    case PowerOn(f0, f1) =>
      if w.Off? {
        BootKeepsLoaded(w.slots, defaults, f0, f1);
      }
    case PowerLoss =>
    case Set(id, value, toFlash, fate) => SetRefines(w, trusted, id, value, toFlash, fate, defaults);
    case ToFlash(id, fate) => ToFlashRefines(w, trusted, id, fate, defaults);
  }

  lemma SetRefines(w: World, trusted: bool, id: int, value: Params, toFlash: bool, fate: Fate, defaults: Params)
    requires Inv(w, trusted) && Careful(w, trusted, [Set(id, value, toFlash, fate)], defaults)
    ensures var (next, status) := Step(w, Set(id, value, toFlash, fate), defaults);
            && Inv(next, TrustedAfter(w, trusted, status))
            && View(next, defaults) == Ideal(View(w, defaults), Set(id, value, toFlash, fate), next.On?)
  {
    if w.On? && Handled(id) && toFlash {
      CommitIsAtomic(On(PutField(id, value, w.sram), w.shadow, w.slots), id, fate, defaults);
    }
  }

  lemma ToFlashRefines(w: World, trusted: bool, id: int, fate: Fate, defaults: Params)
    requires Inv(w, trusted) && Careful(w, trusted, [ToFlash(id, fate)], defaults)
    ensures var (next, status) := Step(w, ToFlash(id, fate), defaults);
            && Inv(next, TrustedAfter(w, trusted, status))
            && View(next, defaults) == Ideal(View(w, defaults), ToFlash(id, fate), next.On?)
  {
    if w.On? && Handled(id) {
      ShadowIsWhatARebootLoads(w, defaults);
      CommitIsAtomic(w, id, fate, defaults);
    }
  }

  /**
   * Over every run, interrupted anywhere, the store behaves like a register whose
   * commits are atomic: a reboot loads the last committed parameters, or those being
   * committed when the power went, exactly if that write was complete.
   */
  lemma {:induction false} RunRefinesAtomicRegister(w: World, trusted: bool, events: seq<Event>, defaults: Params)
    requires Inv(w, trusted) && Careful(w, trusted, events, defaults)
    ensures View(Run(w, events, defaults), defaults)
         == IdealRun(View(w, defaults), events, Alive(w, events, defaults))
    ensures var end := Run(w, events, defaults);
            && WellFormed(end.slots)
            && (end.On? && TrustedAtEnd(w, trusted, events, defaults) ==>
                  InSync(end) && end.shadow.params == Loaded(end.slots, defaults))
    decreases |events|
  {
    if events == [] {
      if w.On? && trusted {
        ShadowIsWhatARebootLoads(w, defaults);
      }
    } else {
      var (next, status) := Step(w, events[0], defaults);
      assert Careful(next, TrustedAfter(w, trusted, status), [], defaults);
      StepRefines(w, trusted, events[0], defaults);
      RunRefinesAtomicRegister(next, TrustedAfter(w, trusted, status), events[1..], defaults);
    }
  }

  /** A boot that went well leaves nothing for the next one to repair. */
  lemma RebootChangesNothing(slots: Flash, defaults: Params, f0: Fate, f1: Fate, g0: Fate, g1: Fate)
    requires WellFormed(slots)
    requires Boot(slots, defaults, f0, f1).1 == Ok
    ensures var up := Boot(slots, defaults, f0, f1).0;
            var again := Boot(up.slots, defaults, g0, g1).0;
            again.On? && again.slots == up.slots && again.sram == up.sram
  {
    BootKeepsLoaded(slots, defaults, f0, f1);
  }

  /**
   * Why Careful asks for a power cycle after EIO: the shadow has moved on, so the next
   * write, whatever it is, is aimed at the last good record. What a reboot loads after it:
   * the new parameters once they are whole and not older than what the other partition
   * has left, the last good ones if nothing was touched, and if the record was torn
   * whatever the failed write left in the other partition, which is nothing or the copy
   * before the last.
   */
  lemma RetryLoads(w: World, id: int, torn: bool, sram: Params, retry: int, fate: Fate, defaults: Params)
    requires InSync(w) && Handled(id) && Handled(retry)
    ensures var (failed, status) := Commit(w, id, -1, -1, IoFails(torn));
            var again := Commit(On(sram, failed.shadow, failed.slots), retry, -1, -1, fate).0;
            var other := w.slots[1 - w.shadow.partition].rec;
            var renewed := NextRecord(sram, failed.shadow, retry, -1, -1);
            && status == EIo
            && Loaded(failed.slots, defaults) == w.shadow.params
            && renewed.partition == w.shadow.partition
            && Loaded(again.slots, defaults) ==
               if fate.Lands() then
                 if torn || other.count < renewed.count || (other.count == renewed.count && renewed.partition == 0)
                 then renewed.params else other.params
               else if fate.Tears() then (if torn then defaults else other.params)
               else w.shadow.params
  {
    var p := w.shadow.partition;
    var failed := Commit(w, id, -1, -1, IoFails(torn)).0;
    var renewed := NextRecord(sram, failed.shadow, retry, -1, -1);
    AfterFailure(w, id, torn, defaults);
    OverTheLast(failed.slots, p, renewed, fate, defaults);
  }

  lemma AfterFailure(w: World, id: int, torn: bool, defaults: Params)
    requires InSync(w) && Handled(id)
    ensures var (failed, status) := Commit(w, id, -1, -1, IoFails(torn));
            var p := w.shadow.partition;
            && status == EIo && failed.On? && failed.shadow.partition == 1 - p
            && failed.slots[p] == Good(w.shadow)
            && failed.slots[1 - p] == (if torn then Damaged else w.slots[1 - p])
            && Loaded(failed.slots, defaults) == w.shadow.params
  {
  }

  /** A write over one partition, whatever the other holds. */
  lemma OverTheLast(slots: Flash, p: nat, rec: Record, fate: Fate, defaults: Params)
    requires p < 2
    ensures var after: Flash := slots[p := SlotAfter(slots[p], rec, fate)];
            var other := slots[1 - p];
            Loaded(after, defaults) ==
              if fate.Lands() then
                if other.Damaged? || other.rec.count < rec.count || (other.rec.count == rec.count && p == 0)
                then rec.params else other.rec.params
              else if fate.Tears() then (if other.Damaged? then defaults else other.rec.params)
              else Loaded(slots, defaults)
  {
  }

  /**
   * A full write after EIO is skipped as equal to the shadow and answered Ok; that answer
   * is true of the flash exactly when the failed write had nothing to change.
   */
  lemma SkipAfterFailureIsDurableIff(w: World, id: int, torn: bool, fate: Fate, defaults: Params)
    requires InSync(w) && Handled(id)
    requires CopyFields(id, w.sram, w.shadow.params) == w.sram
    ensures var failed := Commit(w, id, -1, -1, IoFails(torn)).0;
            && Step(failed, ToFlash(ID_ALL, fate), defaults) == (failed, Ok)
            && (Loaded(failed.slots, defaults) == failed.sram <==> w.sram == w.shadow.params)
  {
    ShadowAfterCommitIff(w, id, IoFails(torn), defaults);
  }

  /** As long as the store is in step the skip tells the truth. */
  lemma SkipInStepIsDurable(w: World, fate: Fate, defaults: Params)
    requires InSync(w) && w.sram == w.shadow.params
    ensures Step(w, ToFlash(ID_ALL, fate), defaults) == (w, Ok)
    ensures Loaded(w.slots, defaults) == w.sram
  {
    ShadowIsWhatARebootLoads(w, defaults);
  }

  /** tls_param_to_default: factory parameters into both partitions, counted from 1. */
  function ToDefault(w: World, defaults: Params, f0: Fate, f1: Fate): (World, Status)
    requires w.On?
  {
    var first := Commit(On(defaults, w.shadow, w.slots), ID_ALL, 1, 0, f0);
    if first.1 != Ok then first else Commit(first.0, ID_ALL, 1, 1, f1)
  }

  /** What a reboot loads after a reset to defaults, however its two writes end. */
  lemma ResetLoads(w: World, defaults: Params, f0: Fate, f1: Fate)
    requires InSync(w)
    ensures Loaded(ToDefault(w, defaults, f0, f1).0.slots, defaults)
         == if f0.Completes? && (f1.Lands() || f1.Tears()) then defaults
            else if f0.Lands() then
              if w.slots[1].rec.count > 1 then w.slots[1].rec.params else defaults
            else if f0.Tears() then w.slots[1].rec.params
            else w.shadow.params
  {
    var first := Commit(On(defaults, w.shadow, w.slots), ID_ALL, 1, 0, f0);
    assert first.0.slots[1] == w.slots[1];
    assert first.0.slots[0] == SlotAfter(w.slots[0], Record(0, 1, defaults), f0);
    if f0.Completes? {
      var second := Commit(first.0, ID_ALL, 1, 1, f1);
      assert second.0.slots[0] == first.0.slots[0];
      assert second.0.slots[1] == SlotAfter(w.slots[1], Record(1, 1, defaults), f1);
    }
  }

  /**
   * So a reset leaves the old parameters or the defaults, wherever it is cut, exactly when
   * the record in partition 1 is the newest, or holds the same as the newest, or already
   * holds the defaults; otherwise it can bring back parameters that had been replaced.
   */
  lemma ResetIsOldOrNewIff(w: World, defaults: Params)
    requires InSync(w)
    ensures (forall f0, f1 :: OldOrNew(w, defaults, f0, f1))
            <==> (w.shadow.partition == 1 || w.slots[1].rec.params == w.shadow.params
                  || w.slots[1].rec.params == defaults)
  {
    var sound := w.shadow.partition == 1 || w.slots[1].rec.params == w.shadow.params
                 || w.slots[1].rec.params == defaults;
    if sound {
      forall f0, f1
        ensures OldOrNew(w, defaults, f0, f1)
      {
        ResetLoads(w, defaults, f0, f1);
      }
    } else {
      ResetLoads(w, defaults, LostTorn, Completes);
      assert !OldOrNew(w, defaults, LostTorn, Completes);
    }
  }

  ghost predicate OldOrNew(w: World, defaults: Params, f0: Fate, f1: Fate)
    requires w.On?
  {
    var loaded := Loaded(ToDefault(w, defaults, f0, f1).0.slots, defaults);
    loaded == Loaded(w.slots, defaults) || loaded == defaults
  }

  /** Such a store exists, whatever is in use, whatever was replaced and whatever the defaults. */
  lemma ResetCanBringBackStaleParameters(old0: Params, old1: Params, defaults: Params)
    returns (w: World)
    requires old0 != old1 && old1 != defaults
    ensures InSync(w) && Loaded(w.slots, defaults) == old0
    ensures Loaded(ToDefault(w, defaults, LostAfter, Completes).0.slots, defaults) == old1
    ensures Loaded(ToDefault(w, defaults, LostTorn, Completes).0.slots, defaults) == old1
  {
    var slots: Flash := [Good(Record(0, 3, old0)), Good(Record(1, 2, old1))];
    w := On(old0, slots[0].rec, slots);
    ResetLoads(w, defaults, LostAfter, Completes);
    ResetLoads(w, defaults, LostTorn, Completes);
  }

  /** The static data of wm_param.c, the flash, and the calls as they are written. */
  class ParamManager {
    const defaults: Params
    var powered: bool
    var magic: bool
    var sram: Params
    var parameters: Params
    var partitionNum: nat
    var modifyCount: nat
    var flash: Flash

    ghost predicate Valid()
      reads this
    {
      powered == magic
    }

    ghost function State(): World
      reads this
    {
      if powered then On(sram, Record(partitionNum, modifyCount, parameters), flash) else Off(flash)
    }

    constructor (flash: Flash, defaults: Params)
      ensures Valid() && State() == Off(flash) && this.defaults == defaults
    {
      this.defaults := defaults;
      this.flash := flash;
      powered, magic := false, false;
      partitionNum, modifyCount := 0, 0;
      sram := seq(ID_MAX, i => 0);
      parameters := seq(ID_MAX, i => 0);
    }

    /** RAM is lost and cleared by the next start-up. */
    method LosePower()
      modifies this`powered, this`magic
      ensures Valid() && State() == Off(flash)
    {
      powered := false;
      magic := false;
    }

    /** The part of param_to_flash that copies the fields named into the shadow. */
    method Carry(id: int)
      requires Handled(id)
      modifies this`parameters
      ensures parameters == CopyFields(id, sram, old(parameters))
    {
      if id == ID_ALL {
        parameters := sram;
      } else {
        parameters := parameters[id := sram[id]];
        if id == ID_AUTO_TRIGGER_PERIOD {
          parameters := parameters[ID_DEBUG_MODE := sram[ID_DEBUG_MODE]];
        }
      }
    }

    /** The part that writes the shadow to the partition it names. */
    method WriteShadow(fate: Fate) returns (err: Status)
      requires powered && magic && partitionNum < 2
      modifies this`flash, this`powered, this`magic
      ensures flash == old(flash)[partitionNum := SlotAfter(old(flash)[partitionNum],
                                    Record(partitionNum, modifyCount, parameters), fate)]
      ensures powered == magic == !fate.PowerLost()
      ensures err == if fate.PowerLost() then PowerGone else if fate.Completes? then Ok else EIo
    {
      var rec := Record(partitionNum, modifyCount, parameters);
      flash := flash[partitionNum := SlotAfter(flash[partitionNum], rec, fate)];
      if fate.PowerLost() {
        LosePower();
        return PowerGone;
      }
      err := if fate.Completes? then Ok else EIo;
    }

    method ParamToFlash(id: int, count: int, partition: int, fate: Fate) returns (err: Status)
      requires powered && count < COUNT_LIMIT && partition < 2
      modifies this
      ensures (State(), err) == Commit(old(State()), id, count, partition, fate)
      ensures err.EInvalid? || err.EInvalidId? || Valid()
      ensures powered && old(magic) ==> magic
    {
      if id < ID_ALL || id >= ID_MAX {
        return EInvalid;
      }
      if id == ID_UNUSED {
        return EInvalidId;
      }
      Carry(id);
      magic := true;
      Renumber(count, partition);
      err := WriteShadow(fate);
    }

    /** The part that gives the shadow its count and its partition. */
    method Renumber(count: int, partition: int)
      requires count < COUNT_LIMIT && partition < 2
      modifies this`modifyCount, this`partitionNum
      ensures modifyCount == if count < 0 then (old(modifyCount) + 1) % COUNT_LIMIT else count
      ensures partitionNum == if partition < 0 then (old(partitionNum) + 1) % 2 else partition
    {
      if count < 0 {
        modifyCount := (modifyCount + 1) % COUNT_LIMIT;
      } else {
        modifyCount := count;
      }
      if partition < 0 {
        partitionNum := (partitionNum + 1) % 2;
      } else {
        partitionNum := partition;
      }
    }

    /** The first loop of tls_param_init: keep the newest record, note what is damaged. */
    method ReadPartitions() returns (isDamage: seq<bool>, damaged: nat)
      requires powered && !magic
      modifies this
      ensures powered && flash == old(flash)
      ensures isDamage == [flash[0].Damaged?, flash[1].Damaged?]
      ensures damaged >= 2 <==> Newest(flash).Damaged?
      ensures magic == Newest(flash).Good?
      ensures magic ==> State() == On(Newest(flash).rec.params, Newest(flash).rec, flash)
      ensures !magic ==> State() == On(Blank().params, Blank(), flash)
    {
      damaged := 0;
      isDamage := [false, false];
      sram, parameters := Blank().params, Blank().params;
      partitionNum, modifyCount := 0, 0;
      var i := 0;
      while i < 2
        invariant 0 <= i <= 2 && |isDamage| == 2
        invariant powered && flash == old(flash)
        invariant forall k | 0 <= k < i :: isDamage[k] == flash[k].Damaged?
        invariant forall k | i <= k < 2 :: !isDamage[k]
        invariant damaged == (if isDamage[0] then 1 else 0) + (if isDamage[1] then 1 else 0)
        invariant magic == (i > damaged)
        invariant !magic ==> State() == On(Blank().params, Blank(), flash)
        invariant magic ==> sram == parameters
        invariant i == 1 && magic ==>
                    flash[0] == Good(Record(partitionNum, modifyCount, parameters))
        invariant i == 2 && magic ==>
                    Newest(flash) == Good(Record(partitionNum, modifyCount, parameters))
      {
        match flash[i] {
          case Damaged =>
            isDamage := isDamage[i := true];
            damaged := damaged + 1;
          case Good(rec) =>
            if !magic || modifyCount < rec.count {
              magic := true;
              partitionNum, modifyCount, parameters := rec.partition, rec.count, rec.params;
              sram := parameters;
            }
        }
        i := i + 1;
      }
    }

    /** The second loop: rewrite the one partition that may be damaged. */
    method RestoreDamaged(isDamage: seq<bool>, fate: Fate) returns (err: Status)
      requires Valid() && powered
      requires |isDamage| == 2 && !(isDamage[0] && isDamage[1])
      modifies this
      ensures Valid()
      ensures (State(), err) == if isDamage[0] then Commit(old(State()), ID_ALL, -1, 0, fate)
                                else if isDamage[1] then Commit(old(State()), ID_ALL, -1, 1, fate)
                                else (old(State()), Ok)
    {
      err := Ok;
      var i := 0;
      while i < 2
        invariant 0 <= i <= 2 && Valid() && err == Ok
        invariant !(i > 0 && isDamage[0]) && !(i > 1 && isDamage[1]) ==> State() == old(State())
        invariant i > 0 && isDamage[0] ==> (State(), err) == Commit(old(State()), ID_ALL, -1, 0, fate)
        invariant i > 1 && isDamage[1] ==> (State(), err) == Commit(old(State()), ID_ALL, -1, 1, fate)
      {
        if isDamage[i] {
          err := ParamToFlash(ID_ALL, -1, i, fate);
          if err != Ok {
            return;
          }
        }
        i := i + 1;
      }
    }

    /** tls_param_init. */
    method Init(f0: Fate, f1: Fate) returns (err: Status)
      requires Valid()
      modifies this
      ensures Valid()
      ensures (State(), err) == Step(old(State()), PowerOn(f0, f1), defaults)
    {
      if magic {
        return EPerm;
      }
      powered := true;
      var isDamage, damaged := ReadPartitions();
      if damaged >= 2 {
        sram := defaults;
        err := ParamToFlash(ID_ALL, 1, 0, f0);
        if err == Ok {
          err := ParamToFlash(ID_ALL, 1, 1, f1);
        }
      } else {
        err := RestoreDamaged(isDamage, f0);
      }
    }

    /** tls_param_set outside of the default-updating mode. */
    method Set(id: int, value: Params, toFlash: bool, fate: Fate) returns (err: Status)
      requires Valid() && powered
      modifies this
      ensures Valid()
      ensures (State(), err) == Step(old(State()), Event.Set(id, value, toFlash, fate), defaults)
      ensures err == Ok && id == -1 ==> sram == value
      ensures err == Ok && id != -1 ==> 0 <= id < 51 && sram == old(sram)[id := value[id]]
    {
      if id < ID_ALL || id >= ID_MAX {
        return EInvalid;
      }
      err := Ok;
      if id == ID_ALL {
        sram := value;
      } else if id == ID_UNUSED {
        return EInvalidId;
      } else {
        sram := sram[id := value[id]];
      }
      if toFlash {
        err := ParamToFlash(id, -1, -1, fate);
      }
    }

    /** tls_param_to_flash. */
    method ToFlash(id: int, fate: Fate) returns (err: Status)
      requires Valid() && powered
      modifies this
      ensures Valid()
      ensures (State(), err) == Step(old(State()), Event.ToFlash(id, fate), defaults)
    {
      if ID_ALL == id {
        if sram == parameters {
          return Ok;
        }
      }
      err := ParamToFlash(id, -1, -1, fate);
    }

    /** tls_param_get: a read "from flash" is a read of the shadow. */
    method Get(id: int, fromFlash: bool) returns (value: seq<int>, err: Status)
      requires Valid() && powered
      ensures !InRange(id) ==> err == EInvalid
      ensures InRange(id) && !Handled(id) ==> err == EInvalidId
      ensures Handled(id) ==>
                var src := if fromFlash then parameters else sram;
                err == Ok && value == if id == ID_ALL then src else [src[id]]
      ensures Handled(id) && fromFlash && InSync(State()) ==>
                var rebooted := Loaded(flash, defaults);
                value == if id == ID_ALL then rebooted else [rebooted[id]]
    {
      value := [];
      if id < ID_ALL || id >= ID_MAX {
        return value, EInvalid;
      }
      var src := if fromFlash then parameters else sram;
      if id == ID_ALL {
        return src, Ok;
      } else if id == ID_UNUSED {
        return value, EInvalidId;
      }
      return [src[id]], Ok;
    }
  }
}
