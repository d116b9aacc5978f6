/** The contact service: name and value checks in front of one repository
    write; the other operations pass straight through to the repository. */
module Contacts {
  import opened Common
  import opened Domain
  import opened Repository

  /** The checks `Create` runs: the name first, then the value. */
  function Check(c: Contact): (v: Option<Rule>)
    ensures v == None <==> c.name != "" && c.value != ""
    ensures v == Some(MissingContactName) <==> c.name == ""
    ensures v == Some(MissingContactValue) <==> c.name != "" && c.value == ""
  {
    if c.name == "" then Some(MissingContactName)
    else if c.value == "" then Some(MissingContactValue)
    else None
  }

  /** `Create`: the repository is written only when name and value are both given. */
  function Create(repo: Store<Contact>, c: Contact): (w: Written<Store<Contact>>)
    ensures w.status.Ok? <==> c.name != "" && c.value != "" && repo.available && c.id !in repo.records
    ensures w.status.Ok? ==> w.store == repo.(records := repo.records[c.id := c], order := repo.order + [c.id])
    ensures WellFormed(repo) ==> WellFormed(w.store)
    ensures w.status.Fail? ==> w.store == repo
    ensures c.name == "" ==> w.status == Fail(Rejected(MissingContactName))
    ensures c.name != "" && c.value == "" ==> w.status == Fail(Rejected(MissingContactValue))
    ensures c.name != "" && c.value != "" && w.status.Fail? ==>
      w.status.error == Wrapped(CreatingContact, Repo(if repo.available then Duplicate else Unavailable))
  {
    CreateIfValid(repo, c.id, c, Check(c), CreatingContact)
  }

  function GetById(repo: Store<Contact>, id: Id): (r: Result<Contact>)
    ensures r.Success? <==> repo.available && id in repo.records
    ensures r.Success? ==> r.value == repo.records[id]
    ensures r.Failure? ==> r.error == Wrapped(GettingContactById, Repo(if repo.available then NotFound else Unavailable))
  {
    Wrap(GettingContactById, Get(repo, id))
  }

  /** `GetByOwnerId`: no contacts, only the error, when the repository fails. */
  function GetByOwnerId(repo: Store<Contact>, ownerId: Id, page: int): (r: Result<seq<Contact>>)
    ensures r.Success? <==> repo.available
    ensures r.Success? ==> |r.value| <= repo.pageSize
    ensures r.Success? ==> forall i :: 0 <= i < |r.value| ==> r.value[i] in repo.records.Values && r.value[i].ownerId == ownerId
    ensures r.Failure? ==> r.error == Wrapped(GettingContactsByOwner, Repo(Unavailable))
  {
    Wrap(GettingContactsByOwner, ListWhere(repo, (x: Contact) => x.ownerId == ownerId, page))
  }

  /** `Update` checks nothing: it succeeds exactly when the contact is stored. */
  function Update(repo: Store<Contact>, c: Contact): (w: Written<Store<Contact>>)
    ensures w.status.Ok? <==> repo.available && c.id in repo.records
    ensures w.status.Ok? ==> w.store == repo.(records := repo.records[c.id := c])
    ensures WellFormed(repo) ==> WellFormed(w.store)
    ensures w.status.Fail? ==> w.store == repo
    ensures w.status.Fail? ==>
      w.status.error == Wrapped(UpdatingContact, Repo(if repo.available then NotFound else Unavailable))
  {
    WrapWrite(UpdatingContact, Replace(repo, c.id, c))
  }

  function DeleteById(repo: Store<Contact>, id: Id): (w: Written<Store<Contact>>)
    ensures w.status.Ok? <==> repo.available && id in repo.records
    ensures w.status.Ok? ==> w.store == repo.(records := repo.records - {id}, order := Without(repo.order, id))
    ensures WellFormed(repo) ==> WellFormed(w.store)
    ensures w.status.Fail? ==> w.store == repo
    ensures w.status.Fail? ==>
      w.status.error == Wrapped(DeletingContact, Repo(if repo.available then NotFound else Unavailable))
  {
    WrapWrite(DeletingContact, Remove(repo, id))
  }
}
