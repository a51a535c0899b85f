/**
 * The section page: which count cards it shows, the notes editor, and the delete-section entry
 * of its menu.
 */
module StitchCounter {
  import opened Optional
  import opened Dicts
  import opened Projects
  import opened Updates
  import opened Store
  import opened UseProjects

  /** The count cards shown, in page order. */
  function ShownCounters(opts: CounterOptions): (cs: seq<Counter>)
    ensures forall c :: c in cs <==> c != Time && opts.Get(c)
  {
    (if opts.stitches then [Stitches] else []) + (if opts.rows then [Rows] else [])
    + (if opts.repeats then [Repeats] else [])
  }

  /** `activeCounters`: how many of stitches, rows and repeats are on; 0 without counter options
      (no project, or a partial record). */
  function ActiveCounters(opts: Option<CounterOptions>): (n: nat)
    ensures n <= 3
    ensures opts.None? ==> n == 0
    ensures opts.Some? ==> n == |ShownCounters(opts.value)|
  {
    match opts
    case None => 0
    case Some(o) => (if o.stitches then 1 else 0) + (if o.rows then 1 else 0) + (if o.repeats then 1 else 0)
  }

  /** The counter options of the selected project, when it is complete. */
  function SelectedCounterOptions(root: Root): Option<CounterOptions> {
    match SelectedProject(root)
    case Some(p) => if p.Complete? then Some(p.options.counterOptions) else None
    case None => None
  }

  datatype Layout = OneColumn | TwoColumns

  /** Two columns exactly for two cards; cards are compact exactly when all three show. */
  function CardsLayout(active: nat): (l: (Layout, bool))
    ensures l.0 == TwoColumns <==> active == 2
    ensures l.1 <==> active == 3
  {
    (if active == 2 then TwoColumns else OneColumn, active == 3)
  }

  /** The page shows no duplicate card, and the cards counted are the cards shown. */
  lemma ShownCountersDistinct(opts: CounterOptions)
    ensures forall i, j :: 0 <= i < j < |ShownCounters(opts)| ==> ShownCounters(opts)[i] != ShownCounters(opts)[j]
    ensures |ShownCounters(opts)| == ActiveCounters(Some(opts))
  {
  }

  /** The notes text of the selected section, as the editor opens it. */
  function ShownNotes(root: Root): string
    requires SectionShown(root) && ShownSection(root) in ShownSections(root).items
  {
    ShownSections(root).items[ShownSection(root)].notes
  }

  /** The store after `handleSaveNotes` with a draft: the notes of the selected section. */
  function SaveNotesStep(root: Root, draft: string, now: int): (r: Root)
    requires SelectedSectionID(root).Some? ==> SectionShown(root) && ShownSection(root) in ShownSections(root).items
    ensures SelectedSectionID(root).None? || root.selectedProjectID == "" ==> r == root
    ensures SelectedSectionID(root).Some? && root.selectedProjectID != "" ==>
      && SectionShown(r) && ShownSection(r) == ShownSection(root)
      && ShownSections(r).keys == ShownSections(root).keys
      && ShownSection(r) in ShownSections(r).items
      && ShownNotes(r) == draft
      && ShownSections(r).items[ShownSection(r)].name == ShownSections(root).items[ShownSection(root)].name
      && ShownSections(r).items[ShownSection(r)].data == ShownSections(root).items[ShownSection(root)].data
      && (forall k :: k != ShownSection(root) ==> ShownSections(r).Get(k) == ShownSections(root).Get(k))
  {
    match SelectedSectionID(root)
    case None => root
    case Some(sid) =>
      var r := UpdateSelectedProject(root, DataUpdate(SetNotes(sid, draft)), now);
      assert r.projects.items[r.selectedProjectID].data.sections.items.Keys
          == root.projects.items[root.selectedProjectID].data.sections.items.Keys;
      r
  }

  /** Opening the editor and saving without typing leaves every section's text, name and counts
      as they were. */
  lemma SaveUnchangedDraft(root: Root, now: int)
    requires SectionShown(root) && ShownSection(root) in ShownSections(root).items
    requires RootValid(root) && root.selectedProjectID != ""
    ensures ShownSections(SaveNotesStep(root, ShownNotes(root), now)).items == ShownSections(root).items
  {
    var r := SaveNotesStep(root, ShownNotes(root), now);
    var sid := ShownSection(root);
    assert ShownSections(r).items[sid] == ShownSections(root).items[sid];
    forall k | k in ShownSections(root).items
      ensures ShownSections(r).items[k] == ShownSections(root).items[k]
    {
      if k != sid {
        assert ShownSections(r).Get(k) == ShownSections(root).Get(k);
      }
    }
  }

  /** The page's own state: whether the notes editor is open and its draft. */
  class NotesEditor {
    var isEditingNotes: bool
    var notesDraft: string

    constructor ()
      ensures !isEditingNotes && notesDraft == ""
    {
      isEditingNotes, notesDraft := false, "";
    }

    /** `handleEditNotes`: the draft starts as the section's text. */
    method EditNotes(store: ProjectStore)
      requires SelectedSectionID(store.State()).Some? ==>
        SectionShown(store.State()) && ShownSection(store.State()) in ShownSections(store.State()).items
      modifies this
      ensures SelectedSectionID(store.State()).None? ==> isEditingNotes == old(isEditingNotes) && notesDraft == old(notesDraft)
      ensures SelectedSectionID(store.State()).Some? ==> isEditingNotes && notesDraft == ShownNotes(store.State())
    {
      var root := store.State();
      if SelectedSectionID(root).Some? {
        notesDraft := ShownNotes(root);
        isEditingNotes := true;
      }
    }

    method TypeNotes(text: string)
      modifies this
      ensures notesDraft == text && isEditingNotes == old(isEditingNotes)
    {
      notesDraft := text;
    }

    /** `handleSaveNotes`: writes the draft and closes the editor (with no section, nothing). */
    method SaveNotes(store: ProjectStore, now: int)
      requires SelectedSectionID(store.State()).Some? ==>
        SectionShown(store.State()) && ShownSection(store.State()) in ShownSections(store.State()).items
      modifies this, store
      ensures store.State() == SaveNotesStep(old(store.State()), old(notesDraft), now)
      ensures notesDraft == old(notesDraft)
      ensures isEditingNotes == (old(isEditingNotes) && SelectedSectionID(old(store.State())).None?)
    {
      var root := store.State();
      if SelectedSectionID(root).Some? {
        store.UpdateSelectedProject(DataUpdate(SetNotes(SelectedSectionID(root).value, notesDraft)), now);
        isEditingNotes := false;
      }
    }

    /** `handleCancelNotes`: closes the editor and drops the draft; the store is untouched. */
    method CancelNotes()
      modifies this
      ensures !isEditingNotes && notesDraft == ""
    {
      isEditingNotes, notesDraft := false, "";
    }
  }

  /** `handleDeleteSection`: deletes the selected section when a section and a (non-empty)
      project id are selected. */
  method DeleteSelectedSection(store: ProjectStore, now: int)
    requires NoPartialSelected(store.State())
    modifies store
    ensures var root := old(store.State());
      store.State() ==
        if SelectedSectionID(root).Some? && root.selectedProjectID != "" then
          DeleteSection(root, root.selectedProjectID, SelectedSectionID(root).value, now)
        else root
  {
    var root := store.State();
    if SelectedSectionID(root).Some? && root.selectedProjectID != "" {
      store.DeleteSection(root.selectedProjectID, SelectedSectionID(root).value, now);
    }
  }

  /** After deleting the selected section the page shows the first remaining section, or none. */
  lemma DeleteSelectedMovesToFirst(root: Root, now: int)
    requires RootValid(root) && SectionShown(root) && root.selectedProjectID != ""
    requires ShownSection(root) in ShownSections(root).items
    ensures var r := DeleteSection(root, root.selectedProjectID, ShownSection(root), now);
      var rest := Without(ShownSections(root).keys, ShownSection(root));
      && ShownSection(root) !in rest
      && (|rest| == 0 ==> SelectedSectionID(r).None?)
      && (SelectedSectionID(r).Some? ==>
            && SelectedSectionID(r) == Some(rest[0])
            && rest[0] in r.projects.items[root.selectedProjectID].data.sections.items)
  {
    var rest := Without(ShownSections(root).keys, ShownSection(root));
    if |rest| > 0 {
      assert rest[0] in rest;
    }
  }
}
