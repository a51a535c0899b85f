/**
 * The section timer. Four page-wide variables say which section's timer runs, since when, from
 * what base, and which section the pending save writes to; the component adds the time of the
 * last interaction. Every handler and effect is a step over those variables and the store.
 * The store is written only through `updateSelectedProject`, so every write lands in the
 * project selected at that moment.
 */
module SectionTimer {
  import opened Optional
  import opened Dicts
  import opened Projects
  import opened Updates
  import opened Store
  import opened UseProjects

  /** `runningTimerSection`, `runningTimerStart`, `runningTimerElapsed` and the section the
      captured `runningTimerSetState` saves to. */
  datatype Running = Running(section: Option<string>, start: Option<int>, elapsed: int, flush: Option<string>)

  const Idle := Running(None, None, 0, None)

  /** Either all four are cleared, or a non-empty section runs from a start time and the pending
      save targets that same section. */
  predicate Consistent(r: Running) {
    && (r.section.None? ==> r == Idle)
    && (r.section.Some? ==> r.section.value != "" && r.start.Some? && r.flush == r.section)
  }

  /** `timerValue`: the stored seconds of the selected section, 0 when the pointer dangles. */
  function TimerValue(root: Root): int
    requires SectionShown(root)
  {
    match ShownSections(root).Get(ShownSection(root))
    case Some(s) => s.data.time
    case None => 0
  }

  /** `isRunning`: the running section is the selected one. */
  predicate IsRunning(r: Running, root: Root)
    requires SectionShown(root)
  {
    r.section == Some(ShownSection(root))
  }

  /** `runningTimerElapsed + Math.floor((Date.now() - (runningTimerStart || 0)) / 1000)`. */
  function ElapsedSeconds(base: int, start: Option<int>, now: int): (r: int)
    ensures var t0 := if start.Some? then start.value else 0;
      (r - base) * 1000 <= now - t0 < (r - base + 1) * 1000
    ensures start.Some? && now >= start.value ==> r >= base
  {
    var t0 := if start.Some? then start.value else 0;
    base + (now - t0) / 1000
  }

  /** Calling the pending save: the section it captured gets the elapsed time, in whatever
      project is selected now. */
  function Flush(r: Running, root: Root, now: int): (root': Root)
    requires SectionShown(root)
    ensures SectionShown(root') && ShownSection(root') == ShownSection(root)
    ensures r.flush.None? ==> root' == root
    ensures root'.selectedProjectID == root.selectedProjectID
    ensures OnlyEntryChanged(root.projects, root'.projects, root.selectedProjectID)
    ensures ShownSections(root').keys == ShownSections(root).keys
    ensures ShownSections(root').items.Keys == ShownSections(root).items.Keys
    ensures forall k :: Some(k) != r.flush ==> ShownSections(root').Get(k) == ShownSections(root).Get(k)
    ensures r.flush.Some? && root.selectedProjectID != "" && r.flush.value in ShownSections(root).items ==>
      ShownSections(root').items[r.flush.value].data.time == ElapsedSeconds(r.elapsed, r.start, now)
  {
    if r.flush.None? then root else WriteCounter(root, r.flush.value, Time, ElapsedSeconds(r.elapsed, r.start, now), now)
  }

  datatype Step = Step(running: Running, root: Root)

  /** `handleStart`: a timer on another section is saved and cleared first; then, unless this
      section's timer already ran, it starts from the stored value. */
  function StartStep(r: Running, root: Root, now: int): (s: Step)
    requires SectionShown(root) && Consistent(r)
    ensures Consistent(s.running) && SectionShown(s.root) && ShownSection(s.root) == ShownSection(root)
    ensures IsRunning(s.running, s.root)
    ensures !IsRunning(r, root) ==> s.running == Running(Some(ShownSection(root)), Some(now), TimerValue(root), Some(ShownSection(root)))
    ensures IsRunning(r, root) ==> s == Step(r, root)
    ensures r.section.None? ==> s.root == root
    ensures r.section.Some? && r.section.value != ShownSection(root) ==> s.root == Flush(r, root, now)
  {
    var sel := ShownSection(root);
    var other := r.section.Some? && r.section.value != sel;
    var root1 := if other then Flush(r, root, now) else root;
    if IsRunning(r, root) then Step(r, root1)
    else Step(Running(Some(sel), Some(now), TimerValue(root), Some(sel)), root1)
  }

  /** `handleStop`: saves the elapsed time into the selected section and clears the timer. */
  function StopStep(r: Running, root: Root, now: int): (s: Step)
    requires SectionShown(root) && Consistent(r)
    ensures Consistent(s.running) && SectionShown(s.root) && !IsRunning(s.running, s.root)
    ensures !IsRunning(r, root) ==> s == Step(r, root)
    ensures IsRunning(r, root) ==>
      && s.running == Idle
      && s.root.selectedProjectID == root.selectedProjectID
      && OnlyEntryChanged(root.projects, s.root.projects, root.selectedProjectID)
      && ShownSections(s.root).keys == ShownSections(root).keys
      && (forall k :: k != ShownSection(root) ==> ShownSections(s.root).Get(k) == ShownSections(root).Get(k))
    ensures IsRunning(r, root) && root.selectedProjectID != "" && ShownSection(root) in ShownSections(root).items ==>
      TimerValue(s.root) == ElapsedSeconds(r.elapsed, r.start, now)
  {
    if IsRunning(r, root) then
      Step(Idle, WriteCounter(root, ShownSection(root), Time, ElapsedSeconds(r.elapsed, r.start, now), now))
    else Step(r, root)
  }

  /** `handleReset`: the selected section's time becomes 0, and its timer (only) is cleared. */
  function ResetStep(r: Running, root: Root, now: int): (s: Step)
    requires SectionShown(root) && Consistent(r)
    ensures Consistent(s.running) && SectionShown(s.root) && !IsRunning(s.running, s.root)
    ensures root.selectedProjectID != "" && ShownSection(root) in ShownSections(root).items ==> TimerValue(s.root) == 0
    ensures !IsRunning(r, root) ==> s.running == r
  {
    Step(if IsRunning(r, root) then Idle else r, WriteCounter(root, ShownSection(root), Time, 0, now))
  }

  /** The one-second interval while this section's timer runs: the store gets the elapsed time. */
  function TickStep(r: Running, root: Root, now: int): (s: Step)
    requires SectionShown(root) && Consistent(r)
    ensures s.running == r && SectionShown(s.root)
    ensures !IsRunning(r, root) ==> s.root == root
  {
    if IsRunning(r, root) then
      Step(r, WriteCounter(root, ShownSection(root), Time, ElapsedSeconds(r.elapsed, r.start, now), now))
    else Step(r, root)
  }

  /** The effect on mount and on every change of the selected section: a timer running for
      another section is saved and cleared, so afterwards only the selected section can run. */
  function SelectionChangedStep(r: Running, root: Root, now: int): (s: Step)
    requires SectionShown(root) && Consistent(r)
    ensures Consistent(s.running) && SectionShown(s.root)
    ensures s.running == Idle || IsRunning(s.running, s.root)
    ensures r.section.None? || IsRunning(r, root) ==> s == Step(r, root)
  {
    if r.section.Some? && r.section.value != ShownSection(root) then Step(Idle, Flush(r, root, now))
    else Step(r, root)
  }

  /** Whether the auto-off check is armed: the timer runs, the option is on and the delay is
      non-zero (`timerOptions` of a missing or partial project are `{}`). */
  predicate AutoOffArmed(running: bool, opts: Option<TimerOptions>) {
    running && opts.Some? && opts.value.autoTurnOff && opts.value.autoTurnOffDelay != 0
  }

  /** `(now - last) / 1000 / 60 >= delay`, kept in whole milliseconds. */
  predicate InactiveFor(last: int, now: int, delayMinutes: int) {
    now - last >= delayMinutes * 60000
  }

  /** The reminder interval, in milliseconds, when one is armed: the option is on, the delay is
      non-zero and the timer does not run. */
  function ReminderPeriod(running: bool, opts: Option<TimerOptions>): (p: Option<int>)
    ensures p.Some? <==> !running && opts.Some? && opts.value.remindTurnOn && opts.value.remindTurnOnDelay != 0
    ensures p.Some? ==> p.value == opts.value.remindTurnOnDelay * 60000 && p.value != 0
  {
    if !running && opts.Some? && opts.value.remindTurnOn && opts.value.remindTurnOnDelay != 0 then
      Some(opts.value.remindTurnOnDelay * 60 * 1000)
    else None
  }

  /** The reminder and the auto-off check are never armed together. */
  lemma ReminderExcludesAutoOff(running: bool, opts: Option<TimerOptions>)
    ensures !(ReminderPeriod(running, opts).Some? && AutoOffArmed(running, opts))
  {
  }

  /** `displayValue`: the live count while this section's timer runs from a non-zero start,
      otherwise the stored value. */
  function DisplayValue(r: Running, root: Root, now: int): int
    requires SectionShown(root)
  {
    if IsRunning(r, root) && r.start.Some? && r.start.value != 0 then
      r.elapsed + (now - r.start.value) / 1000
    else TimerValue(root)
  }

  /** What the display shows is what the next save writes: a tick at the same instant stores
      exactly the displayed value. */
  lemma {:induction false} TickStoresDisplay(r: Running, root: Root, now: int)
    requires SectionShown(root) && Consistent(r) && IsRunning(r, root) && r.start.value != 0
    requires ShownSection(root) in ShownSections(root).items && now >= r.start.value
    requires root.selectedProjectID != ""
    ensures TimerValue(TickStep(r, root, now).root) == DisplayValue(r, root, now)
  {
    var v := ElapsedSeconds(r.elapsed, r.start, now);
    assert v == r.elapsed + (now - r.start.value) / 1000;
  }

  /** Starting and later stopping a section's timer, with nothing in between, adds the whole
      seconds that passed to that section's stored time; besides it, only a section whose timer
      was running before the start is written (its pending save). */
  lemma {:induction false} StartThenStop(r: Running, root: Root, t1: int, t2: int)
    requires SectionShown(root) && Consistent(r) && !IsRunning(r, root)
    requires ShownSection(root) in ShownSections(root).items && t1 <= t2
    requires root.selectedProjectID != ""
    ensures var s1 := StartStep(r, root, t1);
      var s2 := StopStep(s1.running, s1.root, t2);
      && s2.running == Idle
      && ShownSection(s2.root) == ShownSection(root)
      && TimerValue(s2.root) == TimerValue(root) + (t2 - t1) / 1000
      && TimerValue(s2.root) >= TimerValue(root)
      && (forall k :: k != ShownSection(root) && Some(k) != r.section ==>
            ShownSections(s2.root).Get(k) == ShownSections(root).Get(k))
  {
    var s1 := StartStep(r, root, t1);
    assert TimerValue(s1.root) == TimerValue(root);
    var s2 := StopStep(s1.running, s1.root, t2);
    assert s2.root == WriteCounter(s1.root, ShownSection(root), Time, ElapsedSeconds(TimerValue(root), Some(t1), t2), t2);
    assert ElapsedSeconds(TimerValue(root), Some(t1), t2) == TimerValue(root) + (t2 - t1) / 1000;
  }

  /** Switching to another section of the same project while a timer runs keeps the seconds
      counted so far: they are written to the section that was running. */
  lemma {:induction false} SwitchSavesRunningSection(r: Running, root: Root, sid: string, now: int)
    requires RootValid(root) && SectionShown(root) && Consistent(r) && IsRunning(r, root) && sid != ""
    requires sid in ShownSections(root).items && ShownSection(root) in ShownSections(root).items
    requires sid != ShownSection(root) && root.selectedProjectID != ""
    ensures var root1 := SetSelectedSection(root, root.selectedProjectID, sid, now);
      var s := SelectionChangedStep(r, root1, now);
      && s.running == Idle
      && ShownSections(s.root).items[ShownSection(root)].data.time == ElapsedSeconds(r.elapsed, r.start, now)
  {
    var pid := root.selectedProjectID;
    var root1 := SetSelectedSection(root, pid, sid, now);
    assert root1.projects.items[pid].data == root.projects.items[pid].data;
    assert SectionShown(root1) && ShownSection(root1) == sid;
  }

  /** The running timer is identified by its section id alone: selecting another project whose
      selected section has the same id does not stop it, and the next tick writes the count
      started in the first project into that section of the second. */
  lemma {:induction false} SameSectionIDAcrossProjects(r: Running, root: Root, q: string, now: int)
    requires SectionShown(root) && Consistent(r) && IsRunning(r, root)
    requires q != "" && q in root.projects.items && root.projects.items[q].Complete?
    requires root.projects.items[q].selectedSectionID == ShownSection(root)
    requires ShownSection(root) in root.projects.items[q].data.sections.items
    ensures var root1 := SetSelectedProjectID(root, q);
      && SectionShown(root1)
      && SelectionChangedStep(r, root1, now) == Step(r, root1)
      && IsRunning(r, root1)
      && TimerValue(TickStep(r, root1, now).root) == ElapsedSeconds(r.elapsed, r.start, now)
  {
    var root1 := SetSelectedProjectID(root, q);
    assert SelectedSectionID(root1) == Some(ShownSection(root));
  }

  /** The component's state beside the store: the four page-wide variables and the time of the
      last interaction. */
  class Timer {
    var section: Option<string>
    var start: Option<int>
    var elapsed: int
    var flush: Option<string>
    var lastInteraction: int

    function State(): Running
      reads this
    {
      Running(section, start, elapsed, flush)
    }

    /** Page load and first mount: nothing runs, the interaction clock starts now. */
    constructor (now: int)
      ensures State() == Idle && lastInteraction == now
    {
      section, start, elapsed, flush := None, None, 0, None;
      lastInteraction := now;
    }

    /** A new mount keeps the page-wide variables and restarts the interaction clock. */
    method Remount(now: int)
      modifies this
      ensures State() == old(State()) && lastInteraction == now
    {
      lastInteraction := now;
    }

    /** `markInteraction`, also called by the counters after every change. */
    method MarkInteraction(now: int)
      modifies this
      ensures State() == old(State()) && lastInteraction == now
    {
      lastInteraction := now;
    }

    method Clear()
      modifies this
      ensures State() == Idle && lastInteraction == old(lastInteraction)
    {
      section, start, elapsed, flush := None, None, 0, None;
    }

    /** Calls the pending save, if any, through the store. */
    method CallFlush(store: ProjectStore, now: int)
      requires SectionShown(store.State())
      modifies store
      ensures store.State() == Flush(State(), old(store.State()), now)
    {
      if flush.Some? {
        store.UpdateSelectedProject(DataUpdate(SetCounter(flush.value, Time, ElapsedSeconds(elapsed, start, now))), now);
      }
    }

    method Start(store: ProjectStore, now: int)
      requires SectionShown(store.State()) && Consistent(State())
      modifies this, store
      ensures Step(State(), store.State()) == StartStep(old(State()), old(store.State()), now)
      ensures lastInteraction == if IsRunning(old(State()), old(store.State())) then old(lastInteraction) else now
    {
      var sel := ShownSection(store.State());
      var wasRunning := section == Some(sel);
      var value := TimerValue(store.State());
      if section.Some? && section.value != sel {
        CallFlush(store, now);
        Clear();
      }
      if !wasRunning {
        section, start, elapsed, flush := Some(sel), Some(now), value, Some(sel);
        lastInteraction := now;
      }
    }

    method Stop(store: ProjectStore, now: int)
      requires SectionShown(store.State()) && Consistent(State())
      modifies this, store
      ensures Step(State(), store.State()) == StopStep(old(State()), old(store.State()), now)
      ensures lastInteraction == if IsRunning(old(State()), old(store.State())) then now else old(lastInteraction)
    {
      var sel := ShownSection(store.State());
      if section == Some(sel) {
        store.UpdateSelectedProject(DataUpdate(SetCounter(sel, Time, ElapsedSeconds(elapsed, start, now))), now);
        Clear();
        lastInteraction := now;
      }
    }

    method Reset(store: ProjectStore, now: int)
      requires SectionShown(store.State()) && Consistent(State())
      modifies this, store
      ensures Step(State(), store.State()) == ResetStep(old(State()), old(store.State()), now)
      ensures lastInteraction == now
    {
      var sel := ShownSection(store.State());
      store.UpdateSelectedProject(DataUpdate(SetCounter(sel, Time, 0)), now);
      if section == Some(sel) {
        Clear();
      }
      lastInteraction := now;
    }

    method Tick(store: ProjectStore, now: int)
      requires SectionShown(store.State()) && Consistent(State())
      modifies store
      ensures Step(State(), store.State()) == TickStep(State(), old(store.State()), now)
    {
      var sel := ShownSection(store.State());
      if section == Some(sel) {
        store.UpdateSelectedProject(DataUpdate(SetCounter(sel, Time, ElapsedSeconds(elapsed, start, now))), now);
      }
    }

    method SelectionChanged(store: ProjectStore, now: int)
      requires SectionShown(store.State()) && Consistent(State())
      modifies this, store
      ensures Step(State(), store.State()) == SelectionChangedStep(old(State()), old(store.State()), now)
      ensures lastInteraction == old(lastInteraction)
    {
      if section.Some? && section.value != ShownSection(store.State()) {
        CallFlush(store, now);
        Clear();
      }
    }

    /** The once-a-second auto-off check: when armed and the last interaction is at least the
        delay ago, the timer is stopped and the inactivity toast shown. */
    method CheckAutoOff(store: ProjectStore, now: int) returns (toast: bool)
      requires SectionShown(store.State()) && Consistent(State())
      modifies this, store
      ensures toast <==> AutoOffArmed(IsRunning(old(State()), old(store.State())), SelectedTimerOptions(old(store.State())))
                         && InactiveFor(old(lastInteraction), now, SelectedTimerOptions(old(store.State())).value.autoTurnOffDelay)
      ensures toast ==> Step(State(), store.State()) == StopStep(old(State()), old(store.State()), now) && State() == Idle
      ensures !toast ==> State() == old(State()) && store.State() == old(store.State())
    {
      var opts := SelectedTimerOptions(store.State());
      toast := false;
      if AutoOffArmed(section == Some(ShownSection(store.State())), opts)
         && InactiveFor(lastInteraction, now, opts.value.autoTurnOffDelay) {
        Stop(store, now);
        toast := true;
      }
    }
  }
}
