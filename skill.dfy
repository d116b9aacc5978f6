/** The skill service: name and description checks in front of one repository
    write; the other operations pass straight through to the repository. */
module Skills {
  import opened Common
  import opened Domain
  import opened Repository

  /** The checks `Create` runs: the name first, then the description. */
  function Check(s: Skill): (v: Option<Rule>)
    ensures v == None <==> s.name != "" && s.description != ""
    ensures v == Some(MissingSkillName) <==> s.name == ""
    ensures v == Some(MissingSkillDescription) <==> s.name != "" && s.description == ""
  {
    if s.name == "" then Some(MissingSkillName)
    else if s.description == "" then Some(MissingSkillDescription)
    else None
  }

  /** `Create`: the repository is written only when name and description are both given. */
  function Create(repo: Store<Skill>, s: Skill): (w: Written<Store<Skill>>)
    ensures w.status.Ok? <==> s.name != "" && s.description != "" && repo.available && s.id !in repo.records
    ensures w.status.Ok? ==> w.store == repo.(records := repo.records[s.id := s], order := repo.order + [s.id])
    ensures WellFormed(repo) ==> WellFormed(w.store)
    ensures w.status.Fail? ==> w.store == repo
    ensures s.name == "" ==> w.status == Fail(Rejected(MissingSkillName))
    ensures s.name != "" && s.description == "" ==> w.status == Fail(Rejected(MissingSkillDescription))
    ensures s.name != "" && s.description != "" && w.status.Fail? ==>
      w.status.error == Wrapped(CreatingSkill, Repo(if repo.available then Duplicate else Unavailable))
  {
    CreateIfValid(repo, s.id, s, Check(s), CreatingSkill)
  }

  function GetById(repo: Store<Skill>, id: Id): (r: Result<Skill>)
    ensures r.Success? <==> repo.available && id in repo.records
    ensures r.Success? ==> r.value == repo.records[id]
    ensures r.Failure? ==> r.error == Wrapped(GettingSkillById, Repo(if repo.available then NotFound else Unavailable))
  {
    Wrap(GettingSkillById, Get(repo, id))
  }

  /** `GetAll`: no skills, only the error, when the repository fails. */
  function GetAll(repo: Store<Skill>, page: int): (r: Result<seq<Skill>>)
    ensures r.Success? <==> repo.available
    ensures r.Success? ==> |r.value| <= repo.pageSize && forall i :: 0 <= i < |r.value| ==> r.value[i] in repo.records.Values
    ensures r.Failure? ==> r.error == Wrapped(GettingAllSkills, Repo(Unavailable))
  {
    Wrap(GettingAllSkills, ListWhere(repo, (x: Skill) => true, page))
  }

  /** `Update` checks nothing: it succeeds exactly when the skill is stored. */
  function Update(repo: Store<Skill>, s: Skill): (w: Written<Store<Skill>>)
    ensures w.status.Ok? <==> repo.available && s.id in repo.records
    ensures w.status.Ok? ==> w.store == repo.(records := repo.records[s.id := s])
    ensures WellFormed(repo) ==> WellFormed(w.store)
    ensures w.status.Fail? ==> w.store == repo
    ensures w.status.Fail? ==>
      w.status.error == Wrapped(UpdatingSkill, Repo(if repo.available then NotFound else Unavailable))
  {
    WrapWrite(UpdatingSkill, Replace(repo, s.id, s))
  }

  function DeleteById(repo: Store<Skill>, id: Id): (w: Written<Store<Skill>>)
    ensures w.status.Ok? <==> repo.available && id in repo.records
    ensures w.status.Ok? ==> w.store == repo.(records := repo.records - {id}, order := Without(repo.order, id))
    ensures WellFormed(repo) ==> WellFormed(w.store)
    ensures w.status.Fail? ==> w.store == repo
    ensures w.status.Fail? ==>
      w.status.error == Wrapped(DeletingSkill, Repo(if repo.available then NotFound else Unavailable))
  {
    WrapWrite(DeletingSkill, Remove(repo, id))
  }
}
