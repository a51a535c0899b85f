/** The persisted entities: a project with its options and its sections. */
module Projects {
  import opened Optional
  import opened Dicts

  /** The four per-section scalars of `StitchTypes`. */
  datatype Counter = Stitches | Rows | Repeats | Time

  datatype StitchTypes = StitchTypes(stitches: int, rows: int, repeats: int, time: int) {
    function Get(c: Counter): int {
      match c
      case Stitches => stitches
      case Rows => rows
      case Repeats => repeats
      case Time => time
    }

    /** `{ ...data, [c]: v }`: one counter replaced, the other three kept. */
    function With(c: Counter, v: int): (r: StitchTypes)
      ensures r.Get(c) == v
      ensures forall d :: d != c ==> r.Get(d) == Get(d)
    {
      match c
      case Stitches => this.(stitches := v)
      case Rows => this.(rows := v)
      case Repeats => this.(repeats := v)
      case Time => this.(time := v)
    }
  }

  const ZeroCounts := StitchTypes(0, 0, 0, 0)

  /** `notes` has the declared type, a single string. */
  datatype Section = Section(name: string, notes: string, data: StitchTypes)

  datatype ProjectData = ProjectData(sections: Dict<Section>)

  datatype CounterOptions = CounterOptions(stitches: bool, rows: bool, repeats: bool, time: bool) {
    function Get(c: Counter): bool {
      match c
      case Stitches => stitches
      case Rows => rows
      case Repeats => repeats
      case Time => time
    }
  }

  /** The two switches and the two delays, in minutes. */
  datatype TimerFlag = RemindTurnOn | AutoTurnOff
  datatype TimerDelay = RemindTurnOnDelay | AutoTurnOffDelay

  datatype TimerOptions = TimerOptions(remindTurnOn: bool, autoTurnOff: bool, remindTurnOnDelay: int, autoTurnOffDelay: int) {
    function Flag(f: TimerFlag): bool {
      match f
      case RemindTurnOn => remindTurnOn
      case AutoTurnOff => autoTurnOff
    }

    function Delay(d: TimerDelay): int {
      match d
      case RemindTurnOnDelay => remindTurnOnDelay
      case AutoTurnOffDelay => autoTurnOffDelay
    }
  }

  datatype ProjectOptions = ProjectOptions(counterOptions: CounterOptions, timerOptions: TimerOptions)

  /**
   * A project entry of the store. `Complete` is a full `Project` record. `Partial` is what
   * `setSelectedSection` or `renameProject` leave under an id that held no project: a spread of
   * `undefined` plus the fields they write, so only a name and/or a section pointer and the stamp.
   */
  datatype Project =
    | Complete(options: ProjectOptions, data: ProjectData, name: string, color: string,
               lastModified: int, selectedSectionID: string)
    | Partial(partialName: Option<string>, lastModified: int, partialSectionID: Option<string>)

  /** Every section map of a complete project keeps its key order consistent. */
  ghost predicate ProjectValid(p: Project) {
    p.Complete? ==> p.data.sections.Valid()
  }

  /** `templateProject`. Its `lastModified` is the instant the template module was evaluated, and it
      has no sections; the record literal has no `selectedSectionID` (the `Complete` field holds ""). */
  function TemplateProject(loadedAt: int): Project {
    Complete(
      ProjectOptions(CounterOptions(true, true, true, true), TimerOptions(false, false, 30, 60)),
      ProjectData(Dict([], map[])), "Untitled Project", "#808080", loadedAt, "")
  }

  /** The section `addSectionToProject` inserts. */
  const NewSection := Section("Untitled Section", "", ZeroCounts)
}
