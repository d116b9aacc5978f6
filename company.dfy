/** The company service: name and city checks in front of one repository
    write; the other operations pass straight through to the repository. */
module Companies {
  import opened Common
  import opened Domain
  import opened Repository

  /** The checks `Create` runs: the name first, then the city. */
  function Check(c: Company): (v: Option<Rule>)
    ensures v == None <==> c.name != "" && c.city != ""
    ensures v == Some(MissingCompanyName) <==> c.name == ""
    ensures v == Some(MissingCity) <==> c.name != "" && c.city == ""
  {
    if c.name == "" then Some(MissingCompanyName)
    else if c.city == "" then Some(MissingCity)
    else None
  }

  /** `Create`: the repository is written only when name and city are both given. */
  function Create(repo: Store<Company>, c: Company): (w: Written<Store<Company>>)
    ensures w.status.Ok? <==> c.name != "" && c.city != "" && repo.available && c.id !in repo.records
    ensures w.status.Ok? ==> w.store == repo.(records := repo.records[c.id := c], order := repo.order + [c.id])
    ensures WellFormed(repo) ==> WellFormed(w.store)
    ensures w.status.Fail? ==> w.store == repo
    ensures c.name == "" ==> w.status == Fail(Rejected(MissingCompanyName))
    ensures c.name != "" && c.city == "" ==> w.status == Fail(Rejected(MissingCity))
    ensures c.name != "" && c.city != "" && w.status.Fail? ==>
      w.status.error == Wrapped(CreatingCompany, Repo(if repo.available then Duplicate else Unavailable))
  {
    CreateIfValid(repo, c.id, c, Check(c), CreatingCompany)
  }

  /** `GetById`: no company, only the error, when the repository fails. */
  function GetById(repo: Store<Company>, id: Id): (r: Result<Company>)
    ensures r.Success? <==> repo.available && id in repo.records
    ensures r.Success? ==> r.value == repo.records[id]
    ensures r.Failure? ==> r.error == Wrapped(GettingCompanyById, Repo(if repo.available then NotFound else Unavailable))
  {
    Wrap(GettingCompanyById, Get(repo, id))
  }

  function GetByOwnerId(repo: Store<Company>, ownerId: Id, page: int): (r: Result<seq<Company>>)
    ensures r.Success? <==> repo.available
    ensures r.Success? ==> |r.value| <= repo.pageSize
    ensures r.Success? ==> forall i :: 0 <= i < |r.value| ==> r.value[i] in repo.records.Values && r.value[i].ownerId == ownerId
    ensures r.Failure? ==> r.error == Wrapped(GettingCompaniesByOwner, Repo(Unavailable))
  {
    Wrap(GettingCompaniesByOwner, ListWhere(repo, (x: Company) => x.ownerId == ownerId, page))
  }

  function GetAll(repo: Store<Company>, page: int): (r: Result<seq<Company>>)
    ensures r.Success? <==> repo.available
    ensures r.Success? ==> |r.value| <= repo.pageSize && forall i :: 0 <= i < |r.value| ==> r.value[i] in repo.records.Values
    ensures r.Failure? ==> r.error == Wrapped(GettingAllCompanies, Repo(Unavailable))
  {
    Wrap(GettingAllCompanies, ListWhere(repo, (x: Company) => true, page))
  }

  /** `Update` checks nothing: it succeeds exactly when the company is stored,
      even one with an empty name or city. */
  function Update(repo: Store<Company>, c: Company): (w: Written<Store<Company>>)
    ensures w.status.Ok? <==> repo.available && c.id in repo.records
    ensures w.status.Ok? ==> w.store == repo.(records := repo.records[c.id := c])
    ensures WellFormed(repo) ==> WellFormed(w.store)
    ensures w.status.Fail? ==> w.store == repo
    ensures w.status.Fail? ==>
      w.status.error == Wrapped(UpdatingCompany, Repo(if repo.available then NotFound else Unavailable))
  {
    WrapWrite(UpdatingCompany, Replace(repo, c.id, c))
  }

  function DeleteById(repo: Store<Company>, id: Id): (w: Written<Store<Company>>)
    ensures w.status.Ok? <==> repo.available && id in repo.records
    ensures w.status.Ok? ==> w.store == repo.(records := repo.records - {id}, order := Without(repo.order, id))
    ensures WellFormed(repo) ==> WellFormed(w.store)
    ensures w.status.Fail? ==> w.store == repo
    ensures w.status.Fail? ==>
      w.status.error == Wrapped(DeletingCompany, Repo(if repo.available then NotFound else Unavailable))
  {
    WrapWrite(DeletingCompany, Remove(repo, id))
  }
}
