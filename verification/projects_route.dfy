/** `PATCH /api/projects`: edits the emoji, catchphrase or image URL of one project. */
module ProjectsRoute {
  import opened Wrappers
  import opened Http
  import opened Projects

  const MissingIdMessage: string := "缺少项目 ID"
  const NothingToUpdateMessage: string := "请提供要更新的字段（emoji、catchphrase 或 imageUrl）"
  const NotFoundMessage: string := "项目不存在"

  /** The request body; a field may be missing. */
  datatype PatchBody = PatchBody(id: Option<string>, emoji: Option<string>, catchphrase: Option<string>, imageUrl: Option<string>)

  /** The guard on the fields: at least one of them must be truthy. */
  predicate HasTruthyField(body: PatchBody) {
    Truthy(body.emoji) || Truthy(body.catchphrase) || Truthy(body.imageUrl)
  }

  /** PATCH: checks the id, then that some field is truthy, then applies the
      fields as sent (an empty string among them included) to the project. */
  function Patch(projects: seq<Project>, body: PatchBody): (r: (Response<Project>, seq<Project>))
    ensures !Truthy(body.id) <==> r.0 == Fail(StatusBadRequest, MissingIdMessage)
    ensures Truthy(body.id) ==> (!HasTruthyField(body) <==> r.0 == Fail(StatusBadRequest, NothingToUpdateMessage))
    ensures Truthy(body.id) && HasTruthyField(body) ==>
              (r.0 == Fail(StatusNotFound, NotFoundMessage) <==> GetProjectById(projects, body.id.value).None?)
    ensures r.0.Fail? ==> r.1 == projects
    ensures r.0.Reply? ==>
              && r.0.status == StatusOk
              && r.1 == UpdateProject(projects, body.id.value, ProjectUpdate(body.emoji, body.catchphrase, body.imageUrl)).1
              && r.0.body == ApplyUpdate(GetProjectById(projects, body.id.value).value,
                                         ProjectUpdate(body.emoji, body.catchphrase, body.imageUrl))
  {
    if !Truthy(body.id) then (Fail(StatusBadRequest, MissingIdMessage), projects)
    else if !HasTruthyField(body) then (Fail(StatusBadRequest, NothingToUpdateMessage), projects)
    else
      var updated := UpdateProject(projects, body.id.value, ProjectUpdate(body.emoji, body.catchphrase, body.imageUrl));
      match updated.0
      case None => (Fail(StatusNotFound, NotFoundMessage), projects)
      case Some(p) =>
        FoundIsFirst(projects, body.id.value, ProjectUpdate(body.emoji, body.catchphrase, body.imageUrl));
        (Reply(StatusOk, p), updated.1)
  }

  /** The project `updateProject` returns is the first one with the id, updated. */
  lemma FoundIsFirst(projects: seq<Project>, id: string, u: ProjectUpdate)
    requires UpdateProject(projects, id, u).0.Some?
    ensures GetProjectById(projects, id).Some?
    ensures UpdateProject(projects, id, u).0.value == ApplyUpdate(GetProjectById(projects, id).value, u)
  {
    var r := UpdateProject(projects, id, u);
    var i :| && 0 <= i < |projects| && projects[i].id == id
             && (forall j :: 0 <= j < i ==> projects[j].id != id)
             && r.1 == projects[i := ApplyUpdate(projects[i], u)]
             && r.0.value == r.1[i];
    var g := GetProjectById(projects, id).value;
    var k :| && 0 <= k < |projects| && projects[k] == g && g.id == id
             && forall j :: 0 <= j < k ==> projects[j].id != id;
    assert k == i;
  }

  /** A request whose fields are all empty strings is rejected, although
      the store would have accepted the empty strings. */
  lemma EmptyFieldsRejected(projects: seq<Project>, id: string)
    requires id != ""
    ensures Patch(projects, PatchBody(Some(id), Some(""), Some(""), Some(""))).0
            == Fail(StatusBadRequest, NothingToUpdateMessage)
  {}

  /** Next to one truthy field, an empty string does reach the store and
      clears that field. */
  lemma EmptyFieldClearsBesideTruthyOne(projects: seq<Project>, id: string, emoji: string)
    requires id != "" && emoji != ""
    requires GetProjectById(projects, id).Some?
    ensures var r := Patch(projects, PatchBody(Some(id), Some(emoji), Some(""), None));
            r.0.Reply? && r.0.body.catchphrase == "" && r.0.body.emoji == emoji
  {}
}
