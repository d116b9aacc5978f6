/** The activity-field service: required-field and non-zero-cost checks in
    front of one repository write, and the two-step lookup from a company to
    the cost of its activity field. */
module ActivityFields {
  import opened Common
  import opened Domain
  import opened Repository

  /** A cost the source treats as zero: its magnitude is below 1e-7. */
  predicate NearZero(cost: real)
  {
    -0.0000001 < cost < 0.0000001
  }

  /** The checks `Create` runs: name, then description, then cost. */
  function Check(f: ActivityField): (v: Option<Rule>)
    ensures v == None <==> f.name != "" && f.description != "" && !NearZero(f.cost)
    ensures v == Some(MissingFieldName) <==> f.name == ""
    ensures v == Some(MissingFieldDescription) <==> f.name != "" && f.description == ""
    ensures v == Some(ZeroCost) <==> f.name != "" && f.description != "" && NearZero(f.cost)
  {
    if f.name == "" then Some(MissingFieldName)
    else if f.description == "" then Some(MissingFieldDescription)
    else if NearZero(f.cost) then Some(ZeroCost)
    else None
  }

  /** `Create`: the repository is written only for a field that passes all three checks. */
  function Create(repo: Store<ActivityField>, f: ActivityField): (w: Written<Store<ActivityField>>)
    ensures w.status.Ok? <==> Check(f) == None && repo.available && f.id !in repo.records
    ensures w.status.Ok? ==> w.store == repo.(records := repo.records[f.id := f], order := repo.order + [f.id])
    ensures WellFormed(repo) ==> WellFormed(w.store)
    ensures w.status.Ok? ==> !NearZero(w.store.records[f.id].cost)
    ensures w.status.Fail? ==> w.store == repo
    ensures Check(f).Some? ==> w.status == Fail(Rejected(Check(f).value))
    ensures Check(f) == None && w.status.Fail? ==>
      w.status.error == Wrapped(CreatingField, Repo(if repo.available then Duplicate else Unavailable))
  {
    CreateIfValid(repo, f.id, f, Check(f), CreatingField)
  }

  function DeleteById(repo: Store<ActivityField>, id: Id): (w: Written<Store<ActivityField>>)
    ensures w.status.Ok? <==> repo.available && id in repo.records
    ensures w.status.Ok? ==> w.store == repo.(records := repo.records - {id}, order := Without(repo.order, id))
    ensures WellFormed(repo) ==> WellFormed(w.store)
    ensures w.status.Fail? ==> w.store == repo
    ensures w.status.Fail? ==>
      w.status.error == Wrapped(DeletingField, Repo(if repo.available then NotFound else Unavailable))
  {
    WrapWrite(DeletingField, Remove(repo, id))
  }

  /** `Update` checks nothing: a zero cost or an empty name is stored as given. */
  function Update(repo: Store<ActivityField>, f: ActivityField): (w: Written<Store<ActivityField>>)
    ensures w.status.Ok? <==> repo.available && f.id in repo.records
    ensures w.status.Ok? ==> w.store == repo.(records := repo.records[f.id := f])
    ensures WellFormed(repo) ==> WellFormed(w.store)
    ensures w.status.Fail? ==> w.store == repo
    ensures w.status.Fail? ==>
      w.status.error == Wrapped(UpdatingField, Repo(if repo.available then NotFound else Unavailable))
  {
    WrapWrite(UpdatingField, Replace(repo, f.id, f))
  }

  function GetById(repo: Store<ActivityField>, id: Id): (r: Result<ActivityField>)
    ensures r.Success? <==> repo.available && id in repo.records
    ensures r.Success? ==> r.value == repo.records[id]
    ensures r.Failure? ==> r.error == Wrapped(GettingFieldById, Repo(if repo.available then NotFound else Unavailable))
  {
    Wrap(GettingFieldById, Get(repo, id))
  }

  /** A cost together with the error returned beside it; the cost is 0 on error. */
  datatype Costed = Costed(cost: real, status: Status)

  /** `GetCostByCompanyId`: the cost of the activity field whose id the company
      names; if either lookup fails the result is 0 with that lookup's error. */
  function GetCostByCompanyId(companies: Store<Company>, fields: Store<ActivityField>, companyId: Id): (c: Costed)
    ensures c.status.Ok? <==>
      companies.available && companyId in companies.records
      && fields.available && companies.records[companyId].activityFieldId in fields.records
    ensures c.status.Ok? ==> c.cost == fields.records[companies.records[companyId].activityFieldId].cost
    ensures c.status.Fail? ==> c.cost == 0.0
    ensures Get(companies, companyId).Failure? ==>
      c.status == Fail(Wrapped(GettingCompanyById, Get(companies, companyId).error))
    ensures Get(companies, companyId).Success? && c.status.Fail? ==>
      c.status == Fail(Wrapped(GettingFieldById, Get(fields, companies.records[companyId].activityFieldId).error))
  {
    match Get(companies, companyId)
    case Failure(e) => Costed(0.0, Fail(Wrapped(GettingCompanyById, e)))
    case Success(company) =>
      match Get(fields, company.activityFieldId)
      case Failure(e) => Costed(0.0, Fail(Wrapped(GettingFieldById, e)))
      case Success(field) => Costed(field.cost, Ok)
  }

  /** When the company lookup fails the activity-field repository is not
      consulted: any activity-field store gives the same answer. */
  lemma CostLookupStopsAtCompany(companies: Store<Company>, fields1: Store<ActivityField>,
                                 fields2: Store<ActivityField>, companyId: Id)
    requires Get(companies, companyId).Failure?
    ensures GetCostByCompanyId(companies, fields1, companyId) == GetCostByCompanyId(companies, fields2, companyId)
  {
  }

  /** `GetMaxCost`, passed through: the largest stored cost, or 0 with the error. */
  function GetMaxCost(repo: Store<ActivityField>): (c: Costed)
    requires WellFormed(repo)
    ensures c.status.Ok? <==> repo.available && repo.records != map[]
    ensures c.status.Ok? ==> exists id :: id in repo.records && repo.records[id].cost == c.cost
    ensures c.status.Ok? ==> forall id :: id in repo.records ==> repo.records[id].cost <= c.cost
    ensures c.status.Fail? ==> c.cost == 0.0
    ensures c.status.Fail? ==>
      c.status.error == Wrapped(GettingMaxCost, Repo(if repo.available then NotFound else Unavailable))
  {
    ListedHoldsStored(repo);
    match MaxCostOf(repo)
    case Failure(e) => Costed(0.0, Fail(Wrapped(GettingMaxCost, e)))
    case Success(m) => Costed(m, Ok)
  }

  function GetAll(repo: Store<ActivityField>, page: int): (r: Result<seq<ActivityField>>)
    ensures r.Success? <==> repo.available
    ensures r.Success? ==> |r.value| <= repo.pageSize && forall i :: 0 <= i < |r.value| ==> r.value[i] in repo.records.Values
    ensures r.Failure? ==> r.error == Wrapped(GettingAllFields, Repo(Unavailable))
  {
    Wrap(GettingAllFields, ListWhere(repo, (x: ActivityField) => true, page))
  }
}
