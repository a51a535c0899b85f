/**
 * The store's state transforms. The root is `{ projects, selectedProjectID }`; every action of
 * the `ProjectStore` is a function from the old root to the new one, with the clock reading
 * (`Date.now()`) and the random ids passed in.
 */
module Store {
  import opened Optional
  import opened Dicts
  import opened Projects
  import opened Updates

  datatype Root = Root(projects: Dict<Project>, selectedProjectID: string)

  ghost predicate RootValid(r: Root) {
    r.projects.Valid() && forall k :: k in r.projects.items ==> ProjectValid(r.projects.items[k])
  }

  /** Only the entry under `id` differs; an existing key keeps its place and a new one is appended. */
  ghost predicate OnlyEntryChanged(before: Dict<Project>, after: Dict<Project>, id: string) {
    && id in after.items
    && (forall k :: k != id ==> after.Get(k) == before.Get(k))
    && (id in before.items ==> after.keys == before.keys)
    && (id !in before.items ==> after.keys == before.keys + [id])
  }

  /** The section pointer of an entry, absent in a partial record that never got one. */
  function SectionPointer(p: Project): Option<string> {
    if p.Complete? then Some(p.selectedSectionID) else p.partialSectionID
  }

  /** The name of an entry, absent in a partial record that never got one. */
  function NameOf(p: Project): Option<string> {
    if p.Complete? then Some(p.name) else p.partialName
  }

  /** `setSelectedProjectID`: no existence check. */
  function SetSelectedProjectID(root: Root, id: string): (r: Root)
    ensures r.projects == root.projects && r.selectedProjectID == id
  {
    root.(selectedProjectID := id)
  }

  /** `setSelectedSection`: writes the pointer and the stamp under `pid` whether or not a
      project (or the section) exists there. */
  function SetSelectedSection(root: Root, pid: string, sid: string, now: int): (r: Root)
    ensures r.selectedProjectID == root.selectedProjectID
    ensures OnlyEntryChanged(root.projects, r.projects, pid)
    ensures r.projects.items[pid].lastModified == now
    ensures SectionPointer(r.projects.items[pid]) == Some(sid)
    ensures pid !in root.projects.items ==> r.projects.items[pid] == Partial(None, now, Some(sid))
    ensures pid in root.projects.items ==>
      var p, p' := root.projects.items[pid], r.projects.items[pid];
      && p'.Complete? == p.Complete? && NameOf(p') == NameOf(p)
      && (p.Complete? ==> p'.options == p.options && p'.data == p.data && p'.color == p.color)
    ensures RootValid(root) ==> RootValid(r)
  {
    var p' := match root.projects.Get(pid)
      case None => Partial(None, now, Some(sid))
      case Some(p) =>
        if p.Complete? then p.(selectedSectionID := sid, lastModified := now)
        else p.(partialSectionID := Some(sid), lastModified := now);
    root.(projects := root.projects.Put(pid, p'))
  }

  /** `createNewProject`: a copy of the template under `id`, whose pointer is the template's first
      section key or "", and which becomes the selected project. */
  function CreateNewProject(root: Root, id: string, templateLoadedAt: int): (r: Root)
    ensures r.selectedProjectID == id
    ensures OnlyEntryChanged(root.projects, r.projects, id)
    ensures r.projects.items[id] == TemplateProject(templateLoadedAt)
    ensures r.projects.items[id].selectedSectionID == ""
    ensures RootValid(root) ==> RootValid(r)
  {
    var t := TemplateProject(templateLoadedAt);
    var p := t.(selectedSectionID := t.data.sections.FirstKey());
    Root(root.projects.Put(id, p), id)
  }

  /** `addSectionToProject`: an unknown project is left alone; otherwise a fresh zeroed section is
      added under `sid` and selected. (A partial record makes the source throw.) */
  function AddSectionToProject(root: Root, pid: string, sid: string, now: int): (r: Root)
    requires pid !in root.projects.items || root.projects.items[pid].Complete?
    ensures pid !in root.projects.items ==> r == root
    ensures pid in root.projects.items ==> pid in r.projects.items
    ensures pid in root.projects.items ==>
      var p, p' := root.projects.items[pid], r.projects.items[pid];
      && r.selectedProjectID == root.selectedProjectID
      && OnlyEntryChanged(root.projects, r.projects, pid)
      && p'.Complete? && p'.lastModified == now && p'.selectedSectionID == sid
      && p'.options == p.options && p'.name == p.name && p'.color == p.color
      && p'.data.sections.Get(sid) == Some(NewSection)
      && (forall k :: k != sid ==> p'.data.sections.Get(k) == p.data.sections.Get(k))
      && (sid !in p.data.sections.items ==> p'.data.sections.keys == p.data.sections.keys + [sid])
    ensures RootValid(root) ==> RootValid(r)
  {
    match root.projects.Get(pid)
    case None => root
    case Some(p) =>
      var p' := p.(data := p.data.(sections := p.data.sections.Put(sid, NewSection)),
                   selectedSectionID := sid, lastModified := now);
      root.(projects := root.projects.Put(pid, p'))
  }

  /** `renameSection`: a missing project or section is a no-op; otherwise only that section's
      name changes (as given: no trimming here) and the project is stamped. */
  function RenameSection(root: Root, pid: string, sid: string, name: string, now: int): (r: Root)
    requires pid !in root.projects.items || root.projects.items[pid].Complete?
    ensures pid !in root.projects.items || sid !in root.projects.items[pid].data.sections.items ==> r == root
    ensures pid in root.projects.items ==> pid in r.projects.items
    ensures pid in root.projects.items && sid in root.projects.items[pid].data.sections.items ==>
      var p, p' := root.projects.items[pid], r.projects.items[pid];
      var s := p.data.sections.items[sid];
      && r.selectedProjectID == root.selectedProjectID
      && OnlyEntryChanged(root.projects, r.projects, pid)
      && p'.Complete? && p' == p.(data := p'.data, lastModified := now)
      && p'.data.sections.keys == p.data.sections.keys
      && p'.data.sections.Get(sid) == Some(Section(name, s.notes, s.data))
      && (forall k :: k != sid ==> p'.data.sections.Get(k) == p.data.sections.Get(k))
    ensures RootValid(root) ==> RootValid(r)
  {
    match root.projects.Get(pid)
    case None => root
    case Some(p) =>
      match p.data.sections.Get(sid)
      case None => root
      case Some(s) =>
        var p' := p.(data := p.data.(sections := p.data.sections.Put(sid, s.(name := name))),
                     lastModified := now);
        root.(projects := root.projects.Put(pid, p'))
  }

  /** `deleteSection`: a missing project or section is a no-op; otherwise the key is dropped and the
      pointer moves to the first remaining key, or "" — whichever section was selected. */
  function DeleteSection(root: Root, pid: string, sid: string, now: int): (r: Root)
    requires pid !in root.projects.items || root.projects.items[pid].Complete?
    ensures pid !in root.projects.items || sid !in root.projects.items[pid].data.sections.items ==> r == root
    ensures pid in root.projects.items ==> pid in r.projects.items
    ensures pid in root.projects.items && sid in root.projects.items[pid].data.sections.items ==>
      var p, p' := root.projects.items[pid], r.projects.items[pid];
      var rest := Without(p.data.sections.keys, sid);
      && r.selectedProjectID == root.selectedProjectID
      && OnlyEntryChanged(root.projects, r.projects, pid)
      && p'.Complete? && p'.lastModified == now
      && p'.options == p.options && p'.name == p.name && p'.color == p.color
      && p'.data.sections.items == p.data.sections.items - {sid}
      && p'.data.sections.keys == rest
      && p'.selectedSectionID == (if |rest| > 0 then rest[0] else "")
    ensures RootValid(root) ==> RootValid(r)
  {
    match root.projects.Get(pid)
    case None => root
    case Some(p) =>
      if sid !in p.data.sections.items then root
      else
        var sections := p.data.sections.Remove(sid);
        var p' := p.(data := p.data.(sections := sections), selectedSectionID := sections.FirstKey(),
                     lastModified := now);
        root.(projects := root.projects.Put(pid, p'))
  }

  /** `deleteProject`: drops the key; the selection is cleared exactly when it named that key. */
  function DeleteProject(root: Root, pid: string): (r: Root)
    ensures pid !in r.projects.items
    ensures r.projects.items == root.projects.items - {pid}
    ensures r.projects.keys == Without(root.projects.keys, pid)
    ensures root.selectedProjectID == pid ==> r.selectedProjectID == ""
    ensures root.selectedProjectID != pid ==> r.selectedProjectID == root.selectedProjectID
    ensures RootValid(root) ==> RootValid(r)
  {
    Root(root.projects.Remove(pid),
         if root.selectedProjectID == pid then "" else root.selectedProjectID)
  }

  /** `renameProject`: no existence check and no check on the name. */
  function RenameProject(root: Root, pid: string, name: string, now: int): (r: Root)
    ensures r.selectedProjectID == root.selectedProjectID
    ensures OnlyEntryChanged(root.projects, r.projects, pid)
    ensures r.projects.items[pid].lastModified == now
    ensures NameOf(r.projects.items[pid]) == Some(name)
    ensures pid !in root.projects.items ==> r.projects.items[pid] == Partial(Some(name), now, None)
    ensures pid in root.projects.items ==>
      var p, p' := root.projects.items[pid], r.projects.items[pid];
      && p'.Complete? == p.Complete? && SectionPointer(p') == SectionPointer(p)
      && (p.Complete? ==> p'.options == p.options && p'.data == p.data && p'.color == p.color)
    ensures RootValid(root) ==> RootValid(r)
  {
    var p' := match root.projects.Get(pid)
      case None => Partial(Some(name), now, None)
      case Some(p) =>
        if p.Complete? then p.(name := name, lastModified := now)
        else p.(partialName := Some(name), lastModified := now);
    root.(projects := root.projects.Put(pid, p'))
  }

  /** The `key` and `updateFunc` arguments of `updateSelectedProject`. */
  datatype Update = DataUpdate(dataEdit: DataEdit) | OptionsUpdate(optionsEdit: OptionsEdit)

  /** `updateSelectedProject` reads `projects[selectedProjectID][key]` unchecked: the selection
      must be empty or name a complete project. */
  predicate SelectionUsable(root: Root) {
    root.selectedProjectID == ""
    || (root.selectedProjectID in root.projects.items
        && root.projects.items[root.selectedProjectID].Complete?)
  }

  predicate CanUpdate(root: Root, u: Update) {
    && SelectionUsable(root)
    && (root.selectedProjectID != "" && u.DataUpdate? ==>
          Applicable(u.dataEdit, root.projects.items[root.selectedProjectID].data))
  }

  /** `updateSelectedProject`: with no selection nothing happens; otherwise the one field is
      replaced by the update of its old value and the selected project alone is stamped. */
  function UpdateSelectedProject(root: Root, u: Update, now: int): (r: Root)
    requires CanUpdate(root, u)
    ensures root.selectedProjectID == "" ==> r == root
    ensures root.selectedProjectID in r.projects.items || root.selectedProjectID == ""
    ensures root.selectedProjectID != "" ==>
      var id := root.selectedProjectID;
      var p, p' := root.projects.items[id], r.projects.items[id];
      && r.selectedProjectID == id
      && OnlyEntryChanged(root.projects, r.projects, id)
      && r.projects.keys == root.projects.keys
      && p'.Complete? && p'.lastModified == now
      && p'.name == p.name && p'.color == p.color && p'.selectedSectionID == p.selectedSectionID
      && (u.DataUpdate? ==> p'.data == ApplyData(u.dataEdit, p.data) && p'.options == p.options)
      && (u.OptionsUpdate? ==> p'.options == ApplyOptions(u.optionsEdit, p.options) && p'.data == p.data)
    ensures RootValid(root) ==> RootValid(r)
  {
    var id := root.selectedProjectID;
    if id == "" then root
    else
      var p := root.projects.items[id];
      var p' := match u
        case DataUpdate(e) => p.(data := ApplyData(e, p.data), lastModified := now)
        case OptionsUpdate(e) => p.(options := ApplyOptions(e, p.options), lastModified := now);
      root.(projects := root.projects.Put(id, p'))
  }

  // ----- Section pointers -----

  /** Every complete project's pointer is empty or names one of its sections. */
  ghost predicate PointersResolve(root: Root) {
    forall k :: k in root.projects.items && root.projects.items[k].Complete? ==>
      var p := root.projects.items[k];
      p.selectedSectionID == "" || p.selectedSectionID in p.data.sections.items
  }

  /** One call of a store action, with its clock reading and random id as arguments. */
  datatype Action =
    | SelectProject(id: string)
    | SelectSection(pid: string, sid: string)
    | CreateProject(newID: string, templateLoadedAt: int)
    | AddSection(pid: string, newSectionID: string)
    | RenameSectionTo(pid: string, sid: string, name: string)
    | RemoveSection(pid: string, sid: string)
    | RemoveProject(pid: string)
    | RenameProjectTo(pid: string, name: string)
    | UpdateSelected(update: Update)

  /** What each action needs in order not to throw. */
  predicate ActionDefined(root: Root, a: Action) {
    match a
    case AddSection(pid, _) => pid !in root.projects.items || root.projects.items[pid].Complete?
    case RenameSectionTo(pid, _, _) => pid !in root.projects.items || root.projects.items[pid].Complete?
    case RemoveSection(pid, _) => pid !in root.projects.items || root.projects.items[pid].Complete?
    case UpdateSelected(u) => CanUpdate(root, u)
    case _ => true
  }

  function Dispatch(root: Root, a: Action, now: int): (r: Root)
    requires ActionDefined(root, a)
    ensures RootValid(root) ==> RootValid(r)
  {
    match a
    case SelectProject(id) => SetSelectedProjectID(root, id)
    case SelectSection(pid, sid) => SetSelectedSection(root, pid, sid, now)
    case CreateProject(id, t) => CreateNewProject(root, id, t)
    case AddSection(pid, sid) => AddSectionToProject(root, pid, sid, now)
    case RenameSectionTo(pid, sid, name) => RenameSection(root, pid, sid, name, now)
    case RemoveSection(pid, sid) => DeleteSection(root, pid, sid, now)
    case RemoveProject(pid) => DeleteProject(root, pid)
    case RenameProjectTo(pid, name) => RenameProject(root, pid, name, now)
    case UpdateSelected(u) => UpdateSelectedProject(root, u, now)
  }

  /** Selecting a section is the only action that can leave a pointer dangling: when the selected
      section exists (as the sidebar guarantees), every action keeps every pointer resolvable. */
  lemma {:induction false} PointersResolvePreserved(root: Root, a: Action, now: int)
    requires RootValid(root) && PointersResolve(root) && ActionDefined(root, a)
    requires a.SelectSection? && a.pid in root.projects.items && root.projects.items[a.pid].Complete? ==>
      a.sid == "" || a.sid in root.projects.items[a.pid].data.sections.items
    ensures PointersResolve(Dispatch(root, a, now))
  {
    var r := Dispatch(root, a, now);
    forall k | k in r.projects.items && r.projects.items[k].Complete?
      ensures var p := r.projects.items[k]; p.selectedSectionID == "" || p.selectedSectionID in p.data.sections.items
    {
      match a
      case RemoveSection(pid, sid) =>
        if k == pid && pid in root.projects.items && sid in root.projects.items[pid].data.sections.items {
          var rest := Without(root.projects.items[pid].data.sections.keys, sid);
          assert |rest| > 0 ==> rest[0] in rest;
        }
      case UpdateSelected(u) =>
        if k == root.selectedProjectID && k != "" {
          assert r.projects.items[k].data.sections.items.Keys
              == root.projects.items[k].data.sections.items.Keys;
        }
      case _ =>
    }
  }

  /** Deleting a section the pointer does not name still moves the pointer, to the first key:
      with "c" selected, deleting "b" selects "a"; deleting the last section leaves "". */
  lemma DeleteSectionMovesPointer()
    ensures
      var s := Section("Untitled Section", "", ZeroCounts);
      var p := TemplateProject(0).(data := ProjectData(Dict(["a", "b", "c"], map["a" := s, "b" := s, "c" := s])),
                                   selectedSectionID := "c");
      var root := Root(Dict(["P"], map["P" := p]), "P");
      var only := p.(data := ProjectData(Dict(["c"], map["c" := s])));
      DeleteSection(root, "P", "b", 1).projects.items["P"].selectedSectionID == "a"
      && DeleteSection(Root(Dict(["P"], map["P" := only]), "P"), "P", "c", 2).projects.items["P"].selectedSectionID == ""
  {
    assert Without(["a", "b", "c"], "b") == ["a", "c"];
    assert Without(["c"], "c") == [];
  }

  // ----- Selectors -----

  /** `useSelectedProject`: the selected entry, or null. */
  function SelectedProject(root: Root): (r: Option<Project>)
    ensures r.Some? <==> root.selectedProjectID in root.projects.items
    ensures r.Some? ==> r.value == root.projects.items[root.selectedProjectID]
  {
    root.projects.Get(root.selectedProjectID)
  }

  /** `useSelectedSectionID`: the selected project's pointer, or null when there is no selected
      project or the pointer is empty or absent. */
  function SelectedSectionID(root: Root): (r: Option<string>)
    ensures r.Some? <==>
      && root.selectedProjectID in root.projects.items
      && SectionPointer(root.projects.items[root.selectedProjectID]).Some?
      && SectionPointer(root.projects.items[root.selectedProjectID]).value != ""
    ensures r.Some? ==> r == SectionPointer(root.projects.items[root.selectedProjectID])
  {
    match SelectedProject(root)
    case None => None
    case Some(p) =>
      match SectionPointer(p)
      case None => None
      case Some(s) => if s == "" then None else Some(s)
  }

  /** The section views (timer, counters, title, notes) read the selected section of a complete
      project: a section is selected, and the selected entry is not a partial record. */
  predicate SectionShown(root: Root) {
    SelectedSectionID(root).Some? && root.projects.items[root.selectedProjectID].Complete?
  }

  function ShownSection(root: Root): string
    requires SectionShown(root)
  {
    SelectedSectionID(root).value
  }

  function ShownSections(root: Root): Dict<Section>
    requires SectionShown(root)
  {
    root.projects.items[root.selectedProjectID].data.sections
  }

  /** The write behind every counter button and timer save: `updateSelectedProject` on "data"
      setting one counter of section `sid` (nothing, when the selected id is the empty string,
      or when the section is missing). */
  function WriteCounter(root: Root, sid: string, c: Counter, v: int, now: int): (r: Root)
    requires SectionShown(root)
    ensures SectionShown(r) && ShownSection(r) == ShownSection(root)
    ensures r.selectedProjectID == root.selectedProjectID
    ensures OnlyEntryChanged(root.projects, r.projects, root.selectedProjectID)
    ensures ShownSections(r).keys == ShownSections(root).keys
    ensures ShownSections(r).items.Keys == ShownSections(root).items.Keys
    ensures forall k :: k != sid ==> ShownSections(r).Get(k) == ShownSections(root).Get(k)
    ensures root.selectedProjectID == "" ==> r == root
    ensures root.selectedProjectID != "" && sid in ShownSections(root).items ==>
      var s, s' := ShownSections(root).items[sid], ShownSections(r).items[sid];
      && s'.data.Get(c) == v && s'.name == s.name && s'.notes == s.notes
      && (forall c' :: c' != c ==> s'.data.Get(c') == s.data.Get(c'))
    ensures sid !in ShownSections(root).items ==> ShownSections(r) == ShownSections(root)
    ensures RootValid(root) ==> RootValid(r)
  {
    var r := UpdateSelectedProject(root, DataUpdate(SetCounter(sid, c, v)), now);
    assert r.projects.items[r.selectedProjectID].data.sections.items.Keys
        == root.projects.items[root.selectedProjectID].data.sections.items.Keys;
    r
  }

  /** `useSelectedProjectName`. */
  function SelectedProjectName(root: Root): Option<string> {
    match SelectedProject(root)
    case None => None
    case Some(p) => NameOf(p)
  }

  /** `project?.options?.timerOptions`, absent for no project and for a partial record. */
  function SelectedTimerOptions(root: Root): (r: Option<TimerOptions>)
    ensures r.Some? <==> SelectedProject(root).Some? && SelectedProject(root).value.Complete?
  {
    match SelectedProject(root)
    case Some(p) => if p.Complete? then Some(p.options.timerOptions) else None
    case None => None
  }

  /** The components read `project.data.sections` of the selected project unchecked. */
  predicate NoPartialSelected(root: Root) {
    root.selectedProjectID !in root.projects.items || root.projects.items[root.selectedProjectID].Complete?
  }

  // ----- Persistence -----

  /** What `partialize` keeps: the two data fields, never the actions or the timer. */
  datatype Persisted = Persisted(projects: Dict<Project>, selectedProjectID: string)

  function Partialize(root: Root): Persisted {
    Persisted(root.projects, root.selectedProjectID)
  }

  /** Rehydration: the stored fields replace the current ones; an absent or unreadable slot keeps
      the current (initial) state. */
  function Merge(current: Root, slot: Option<Persisted>): Root {
    match slot
    case None => current
    case Some(p) => Root(p.projects, p.selectedProjectID)
  }

  /** Storing then rehydrating restores the root, whatever state rehydration starts from. */
  lemma PersistRoundTrip(current: Root, root: Root)
    ensures Merge(current, Some(Partialize(root))) == root
  {
  }
}
