/**
 * The store object itself: the two persisted fields, updated in place by each action. Every
 * method's new state is the matching `Store` transform of the old one.
 */
module UseProjects {
  import opened Optional
  import opened Dicts
  import opened Projects
  import opened Store
  import opened Updates

  class ProjectStore {
    var projects: Dict<Project>
    var selectedProjectID: string

    function State(): Root
      reads this
    {
      Root(projects, selectedProjectID)
    }

    ghost predicate Valid()
      reads this
    {
      RootValid(State())
    }

    /** Creation: the example projects and no selection, then whatever the storage slot holds. */
    constructor (examples: Dict<Project>, slot: Option<Persisted>)
      ensures State() == Merge(Root(examples, ""), slot)
    {
      var r := Merge(Root(examples, ""), slot);
      projects := r.projects;
      selectedProjectID := r.selectedProjectID;
    }

    /** Cross-window sync: a `storage` event or a `stitch-counter-sync` message re-reads the slot. */
    method Rehydrate(slot: Option<Persisted>)
      modifies this
      ensures State() == Merge(old(State()), slot)
    {
      var r := Merge(State(), slot);
      projects, selectedProjectID := r.projects, r.selectedProjectID;
    }

    method SetSelectedProjectID(id: string)
      modifies this
      ensures State() == Store.SetSelectedProjectID(old(State()), id)
      ensures old(Valid()) ==> Valid()
    {
      selectedProjectID := id;
    }

    method SetSelectedSection(pid: string, sid: string, now: int)
      modifies this
      ensures State() == Store.SetSelectedSection(old(State()), pid, sid, now)
      ensures old(Valid()) ==> Valid()
    {
      var r := Store.SetSelectedSection(State(), pid, sid, now);
      projects := r.projects;
    }

    method CreateNewProject(id: string, templateLoadedAt: int)
      modifies this
      ensures State() == Store.CreateNewProject(old(State()), id, templateLoadedAt)
      ensures old(Valid()) ==> Valid()
    {
      var r := Store.CreateNewProject(State(), id, templateLoadedAt);
      projects, selectedProjectID := r.projects, r.selectedProjectID;
    }

    method AddSectionToProject(pid: string, sid: string, now: int)
      requires pid !in projects.items || projects.items[pid].Complete?
      modifies this
      ensures State() == Store.AddSectionToProject(old(State()), pid, sid, now)
      ensures old(Valid()) ==> Valid()
    {
      var r := Store.AddSectionToProject(State(), pid, sid, now);
      projects := r.projects;
    }

    method RenameSection(pid: string, sid: string, name: string, now: int)
      requires pid !in projects.items || projects.items[pid].Complete?
      modifies this
      ensures State() == Store.RenameSection(old(State()), pid, sid, name, now)
      ensures old(Valid()) ==> Valid()
    {
      var r := Store.RenameSection(State(), pid, sid, name, now);
      projects := r.projects;
    }

    method DeleteSection(pid: string, sid: string, now: int)
      requires pid !in projects.items || projects.items[pid].Complete?
      modifies this
      ensures State() == Store.DeleteSection(old(State()), pid, sid, now)
      ensures old(Valid()) ==> Valid()
    {
      var r := Store.DeleteSection(State(), pid, sid, now);
      projects := r.projects;
    }

    method DeleteProject(pid: string)
      modifies this
      ensures State() == Store.DeleteProject(old(State()), pid)
      ensures old(Valid()) ==> Valid()
    {
      projects := projects.Remove(pid);
      if selectedProjectID == pid {
        selectedProjectID := "";
      }
    }

    method RenameProject(pid: string, name: string, now: int)
      modifies this
      ensures State() == Store.RenameProject(old(State()), pid, name, now)
      ensures old(Valid()) ==> Valid()
    {
      var r := Store.RenameProject(State(), pid, name, now);
      projects := r.projects;
    }

    method UpdateSelectedProject(u: Update, now: int)
      requires CanUpdate(State(), u)
      modifies this
      ensures State() == Store.UpdateSelectedProject(old(State()), u, now)
      ensures old(Valid()) ==> Valid()
    {
      if selectedProjectID != "" {
        var r := Store.UpdateSelectedProject(State(), u, now);
        projects := r.projects;
      }
    }
  }
}
