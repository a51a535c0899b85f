/**
 * The selected section's title and its inline rename editor. Whether the editor is open is the
 * parent's state; the typed text and the time the editor opened belong to the title.
 */
module SectionTitle {
  import opened Optional
  import opened Dicts
  import opened Projects
  import opened Store
  import opened UseProjects
  import opened Text

  /** The title reads `project.data` of the selected entry whenever a section is selected. */
  predicate TitleReadable(root: Root) {
    SelectedSectionID(root).Some? ==> NoPartialSelected(root)
  }

  const NoSection := "No section selected"

  /** `sectionName`: the selected section's name, or the placeholder when no section is selected
      or the pointer dangles. */
  function SectionName(root: Root): (name: string)
    requires TitleReadable(root)
    ensures SelectedSectionID(root).None? ==> name == NoSection
    ensures SectionShown(root) && ShownSection(root) in ShownSections(root).items ==>
      name == ShownSections(root).items[ShownSection(root)].name
    ensures SectionShown(root) && ShownSection(root) !in ShownSections(root).items ==> name == NoSection
  {
    match SelectedSectionID(root)
    case None => NoSection
    case Some(sid) =>
      match root.projects.items[root.selectedProjectID].data.sections.Get(sid)
      case Some(s) => s.name
      case None => NoSection
  }

  /** The guard of `handleSubmit`: the trimmed text, when it is not blank and the raw text differs
      from the current name. */
  function SubmittedName(input: string, current: Option<string>): (r: Option<string>)
    ensures r.Some? <==> Trim(input) != [] && Some(input) != current
    ensures r.Some? ==> r.value == Trim(input)
  {
    if Trim(input) != [] && Some(input) != current then Some(Trim(input)) else None
  }

  /** A submitted name is never blank and never starts or ends with white space. */
  lemma SubmittedNameIsTrimmed(input: string, current: Option<string>)
    requires SubmittedName(input, current).Some?
    ensures var n := SubmittedName(input, current).value;
      n != [] && !IsSpace(n[0]) && !IsSpace(n[|n| - 1]) && Trim(n) == n
  {
    TrimSlice(input);
    TrimIdempotent(input);
  }

  /** Submitting the name just applied again renames nothing. */
  lemma ResubmitIsNoOp(input: string, current: Option<string>)
    requires SubmittedName(input, current).Some?
    ensures var n := SubmittedName(input, current).value; SubmittedName(n, Some(n)).None?
  {
  }

  /** `handleBlur` keeps the editor open when the editor opened less than 300 ms ago (an unset or
      zero start time does not count) or when focus moves to the check button. */
  predicate BlurKeepsEditing(start: Option<int>, now: int, towardCheck: bool) {
    (start.Some? && start.value != 0 && now - start.value < 300) || towardCheck
  }

  /** Within 300 ms of opening, no blur closes the editor; afterwards only a blur toward the
      check button keeps it. */
  lemma BlurGracePeriod(start: int, now: int, towardCheck: bool)
    requires start != 0 && start <= now
    ensures now - start < 300 ==> BlurKeepsEditing(Some(start), now, towardCheck)
    ensures now - start >= 300 ==> (BlurKeepsEditing(Some(start), now, towardCheck) <==> towardCheck)
  {
  }

  /** The store after `handleSubmit`. */
  function SubmitStep(root: Root, input: string, now: int): (r: Root)
    requires TitleReadable(root)
    ensures r != root ==> (
      && SectionShown(root) && SectionShown(r)
      && ShownSection(root) in ShownSections(root).items
      && SubmittedName(input, Some(ShownSections(root).items[ShownSection(root)].name)).Some?)
    ensures SectionShown(root) && ShownSection(root) in ShownSections(root).items ==>
      var name := ShownSections(root).items[ShownSection(root)].name;
      match SubmittedName(input, Some(name))
      case None => r == root
      case Some(n) =>
        && SectionShown(r) && ShownSection(r) == ShownSection(root)
        && ShownSections(r).items.Keys == ShownSections(root).items.Keys
        && ShownSections(r).items[ShownSection(root)].name == n
        && ShownSections(r).keys == ShownSections(root).keys
        && r == RenameSection(root, root.selectedProjectID, ShownSection(root), n, now)
  {
    match SelectedSectionID(root)
    case None => root
    case Some(sid) =>
      var current := match root.projects.items[root.selectedProjectID].data.sections.Get(sid)
        case Some(s) => Some(s.name)
        case None => None;
      match SubmittedName(input, current)
      case None => root
      case Some(n) => RenameSection(root, root.selectedProjectID, sid, n, now)
  }

  class TitleEditor {
    var editing: bool
    var inputValue: string
    var editingStart: Option<int>

    constructor ()
      ensures !editing && inputValue == "" && editingStart == None
    {
      editing, inputValue, editingStart := false, "", None;
    }

    /** "Rename Section": opening the editor clears the text and records the time; asking again
        while it is open changes nothing. */
    method BeginEditing(now: int)
      modifies this
      ensures editing
      ensures !old(editing) ==> inputValue == "" && editingStart == Some(now)
      ensures old(editing) ==> inputValue == old(inputValue) && editingStart == old(editingStart)
    {
      if !editing {
        editing, inputValue, editingStart := true, "", Some(now);
      }
    }

    method Type(text: string)
      modifies this
      ensures inputValue == text && editing == old(editing) && editingStart == old(editingStart)
    {
      inputValue := text;
    }

    method Blur(now: int, towardCheck: bool)
      modifies this
      ensures editing == (old(editing) && BlurKeepsEditing(old(editingStart), now, towardCheck))
      ensures inputValue == old(inputValue) && editingStart == old(editingStart)
    {
      if !BlurKeepsEditing(editingStart, now, towardCheck) {
        editing := false;
      }
    }

    /** Enter or the check button: rename when the guard allows, and close the editor. */
    method Submit(store: ProjectStore, now: int)
      requires TitleReadable(store.State())
      modifies this, store
      ensures store.State() == SubmitStep(old(store.State()), old(inputValue), now)
      ensures !editing && inputValue == old(inputValue) && editingStart == old(editingStart)
    {
      var root := store.State();
      if SelectedSectionID(root).Some? {
        var sid := SelectedSectionID(root).value;
        var current := match root.projects.items[root.selectedProjectID].data.sections.Get(sid)
          case Some(s) => Some(s.name)
          case None => None;
        var n := SubmittedName(inputValue, current);
        if n.Some? {
          store.RenameSection(root.selectedProjectID, sid, n.value, now);
        }
      }
      editing := false;
    }

    /** Escape or the cross button. */
    method Cancel()
      modifies this
      ensures !editing && inputValue == old(inputValue) && editingStart == old(editingStart)
    {
      editing := false;
    }
  }
}
