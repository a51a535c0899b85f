/**
 * The update functions the components hand to `updateSelectedProject`, one constructor per
 * distinct lambda, so that two updates can be compared.
 */
module Updates {
  import opened Optional
  import opened Dicts
  import opened Projects

  /** Updaters of the `data` field. */
  datatype DataEdit =
      /** `sections[id].data[counter] := value`, skipped when the section is missing
          (DataPointCounter's `setValue`, and SectionTimer's writes of `time`). */
    | SetCounter(sectionID: string, counter: Counter, value: int)
      /** `sections[id].notes := notes`, without an existence check (StitchCounter's
          `handleSaveNotes`). */
    | SetNotes(sectionID: string, notes: string)

  /** Updaters of the `options` field (TimerSettings' switch and input). */
  datatype OptionsEdit =
    | SetFlag(flag: TimerFlag, on: bool)
    | SetDelay(delay: TimerDelay, minutes: int)

  /** `SetNotes` spreads `data.sections[id]` unchecked: on a missing section it would write a
      record holding only `notes`, which the model does not represent. */
  predicate Applicable(e: DataEdit, d: ProjectData) {
    e.SetNotes? ==> e.sectionID in d.sections.items
  }

  function ApplyData(e: DataEdit, d: ProjectData): (r: ProjectData)
    requires Applicable(e, d)
    ensures d.sections.Valid() ==> r.sections.Valid()
    ensures r.sections.keys == d.sections.keys
    ensures r.sections.items.Keys == d.sections.items.Keys
    ensures forall k :: k != e.sectionID ==> r.sections.Get(k) == d.sections.Get(k)
    ensures e.SetCounter? && e.sectionID !in d.sections.items ==> r == d
    ensures e.SetCounter? && e.sectionID in d.sections.items ==>
      var s, s' := d.sections.items[e.sectionID], r.sections.items[e.sectionID];
      s'.name == s.name && s'.notes == s.notes && s'.data.Get(e.counter) == e.value
      && forall c :: c != e.counter ==> s'.data.Get(c) == s.data.Get(c)
    ensures e.SetNotes? ==>
      var s, s' := d.sections.items[e.sectionID], r.sections.items[e.sectionID];
      s'.name == s.name && s'.data == s.data && s'.notes == e.notes
  {
    match e
    case SetCounter(id, c, v) =>
      if id !in d.sections.items then d
      else
        var s := d.sections.items[id];
        d.(sections := d.sections.Put(id, s.(data := s.data.With(c, v))))
    case SetNotes(id, notes) =>
      d.(sections := d.sections.Put(id, d.sections.items[id].(notes := notes)))
  }

  function ApplyOptions(e: OptionsEdit, o: ProjectOptions): (r: ProjectOptions)
    ensures r.counterOptions == o.counterOptions
    ensures e.SetFlag? ==> (
      && r.timerOptions.Flag(e.flag) == e.on
      && (forall f :: f != e.flag ==> r.timerOptions.Flag(f) == o.timerOptions.Flag(f))
      && (forall d :: r.timerOptions.Delay(d) == o.timerOptions.Delay(d)))
    ensures e.SetDelay? ==> (
      && r.timerOptions.Delay(e.delay) == e.minutes
      && (forall d :: d != e.delay ==> r.timerOptions.Delay(d) == o.timerOptions.Delay(d))
      && (forall f :: r.timerOptions.Flag(f) == o.timerOptions.Flag(f)))
  {
    var t := o.timerOptions;
    match e
    case SetFlag(RemindTurnOn, b) => o.(timerOptions := t.(remindTurnOn := b))
    case SetFlag(AutoTurnOff, b) => o.(timerOptions := t.(autoTurnOff := b))
    case SetDelay(RemindTurnOnDelay, m) => o.(timerOptions := t.(remindTurnOnDelay := m))
    case SetDelay(AutoTurnOffDelay, m) => o.(timerOptions := t.(autoTurnOffDelay := m))
  }
}
