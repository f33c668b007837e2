/**
 * The project store. Only a project's emoji, catchphrase and image URL are
 * editable; a partial update distinguishes a field left `undefined` (not
 * changed) from a field given any string, the empty string included.
 */
module Projects {
  import opened Wrappers
  import opened Seqs

  datatype Project = Project(
    id: string,
    emoji: string,
    title: string,
    description: string,
    link: string,
    catchphrase: string,
    imageUrl: Option<string>)

  /** The editable fields; `None` is a field left `undefined`. */
  datatype ProjectUpdate = ProjectUpdate(emoji: Option<string>, catchphrase: Option<string>, imageUrl: Option<string>)

  /** `getProjectById`: the first project with id `id`, or none. */
  function GetProjectById(projects: seq<Project>, id: string): (r: Option<Project>)
    ensures r.None? <==> forall i :: 0 <= i < |projects| ==> projects[i].id != id
    ensures r.Some? ==> exists i :: && 0 <= i < |projects| && projects[i] == r.value && r.value.id == id
                                    && forall j :: 0 <= j < i ==> projects[j].id != id
  {
    Find(projects, (p: Project) => p.id == id)
  }

  /** The field assignments of `updateProject`: each editable field takes the
      update's value exactly when that value is not `undefined`; the fixed
      reference fields never change. */
  function ApplyUpdate(p: Project, u: ProjectUpdate): (q: Project)
    ensures q.id == p.id && q.title == p.title && q.description == p.description && q.link == p.link
    ensures (u.emoji.Some? ==> q.emoji == u.emoji.value) && (u.emoji.None? ==> q.emoji == p.emoji)
    ensures (u.catchphrase.Some? ==> q.catchphrase == u.catchphrase.value)
            && (u.catchphrase.None? ==> q.catchphrase == p.catchphrase)
    ensures (u.imageUrl.Some? ==> q.imageUrl == u.imageUrl) && (u.imageUrl.None? ==> q.imageUrl == p.imageUrl)
  {
    var p1 := if u.emoji.Some? then p.(emoji := u.emoji.value) else p;
    var p2 := if u.catchphrase.Some? then p1.(catchphrase := u.catchphrase.value) else p1;
    if u.imageUrl.Some? then p2.(imageUrl := u.imageUrl) else p2
  }

  /** `updateProject`: applies the update to the first project with id `id`
      and returns it; with no such project nothing is written. */
  function UpdateProject(projects: seq<Project>, id: string, u: ProjectUpdate): (r: (Option<Project>, seq<Project>))
    ensures r.0.None? <==> forall i :: 0 <= i < |projects| ==> projects[i].id != id
    ensures r.0.None? ==> r.1 == projects
    ensures r.0.Some? ==>
              exists i :: && 0 <= i < |projects| && projects[i].id == id
                          && (forall j :: 0 <= j < i ==> projects[j].id != id)
                          && r.1 == projects[i := ApplyUpdate(projects[i], u)]
                          && r.0.value == r.1[i]
  {
    match FirstIndex(projects, (p: Project) => p.id == id)
    case None => (None, projects)
    case Some(i) =>
      assert projects[i].id == id;
      var updated := projects[i := ApplyUpdate(projects[i], u)];
      (Some(updated[i]), updated)
  }

  /** The update that leaves every field `undefined`. */
  const NoChange := ProjectUpdate(None, None, None)

  /** Applying `first` then `second` is applying their merge, where a field
      `second` leaves `undefined` falls back to `first`. */
  function Merge(first: ProjectUpdate, second: ProjectUpdate): ProjectUpdate {
    ProjectUpdate(
      if second.emoji.Some? then second.emoji else first.emoji,
      if second.catchphrase.Some? then second.catchphrase else first.catchphrase,
      if second.imageUrl.Some? then second.imageUrl else first.imageUrl)
  }

  lemma UpdatesCompose(p: Project, first: ProjectUpdate, second: ProjectUpdate)
    ensures ApplyUpdate(ApplyUpdate(p, first), second) == ApplyUpdate(p, Merge(first, second))
  {}

  /** Sending the same update twice is sending it once. */
  lemma UpdateIdempotent(p: Project, u: ProjectUpdate)
    ensures ApplyUpdate(ApplyUpdate(p, u), u) == ApplyUpdate(p, u)
  {}

  /** An update with every field `undefined` changes nothing, while an update
      carrying the empty string does overwrite. */
  lemma UndefinedVersusEmpty(p: Project)
    ensures ApplyUpdate(p, NoChange) == p
    ensures ApplyUpdate(p, ProjectUpdate(Some(""), None, None)).emoji == ""
  {}

  /** Updating keeps the sequence's length, order and every other project. */
  lemma UpdateProjectFrame(projects: seq<Project>, id: string, u: ProjectUpdate)
    ensures var r := UpdateProject(projects, id, u);
            && |r.1| == |projects|
            && forall i :: 0 <= i < |projects| ==>
                 && r.1[i].id == projects[i].id && r.1[i].title == projects[i].title
                 && r.1[i].description == projects[i].description && r.1[i].link == projects[i].link
                 && (projects[i].id != id ==> r.1[i] == projects[i])
  {}
}
