/** Abstract in-memory repositories. The real repositories (and the database
    behind them) are outside this model; here a repository is a map from id to
    record, kept with the order the records were added in, that may be
    unavailable (every call fails), may miss a key (NotFound) or may already
    hold one (Duplicate). Listings are cut into pages of `pageSize` records. */
module Repository {
  import opened Common
  import opened Domain

  datatype Store<R> = Store(records: map<Id, R>, order: seq<Id>, available: bool, pageSize: nat)

  /** The store's bookkeeping is consistent: `order` lists every stored id, and
      only those, exactly once. Every write below keeps this. */
  predicate WellFormed<R>(s: Store<R>)
  {
    && Distinct(s.order)
    && (forall id :: id in s.records ==> id in s.order)
    && (forall i :: 0 <= i < |s.order| ==> s.order[i] in s.records)
  }

  /** The records whose ids appear in `ids`, in that order. */
  function RecordsAt<R(==)>(records: map<Id, R>, ids: seq<Id>): (rs: seq<R>)
    ensures forall i :: 0 <= i < |rs| ==> rs[i] in records.Values
  {
    if ids == [] then []
    else (if ids[0] in records then [records[ids[0]]] else []) + RecordsAt(records, ids[1..])
  }

  /** Every stored record, in the order they were added. */
  function Listed<R(==)>(s: Store<R>): seq<R>
  {
    RecordsAt(s.records, s.order)
  }

  lemma {:induction false} RecordsAtHas<R>(records: map<Id, R>, ids: seq<Id>, id: Id)
    requires id in ids && id in records
    ensures records[id] in RecordsAt(records, ids)
  {
    if ids[0] != id {
      assert id in ids[1..];
      RecordsAtHas(records, ids[1..], id);
    }
  }

  /** In a well-formed store the listing holds every stored record. */
  lemma ListedHoldsStored<R>(s: Store<R>)
    requires WellFormed(s)
    ensures forall id :: id in s.records ==> s.records[id] in Listed(s)
  {
    forall id | id in s.records
      ensures s.records[id] in Listed(s)
    {
      RecordsAtHas(s.records, s.order, id);
    }
  }

  /** Repository `GetById`. */
  function Get<R>(s: Store<R>, id: Id): Result<R>
  {
    if !s.available then Failure(Repo(Unavailable))
    else if id in s.records then Success(s.records[id])
    else Failure(Repo(NotFound))
  }

  /** Repository `Create`: refuses an id that is already stored. */
  function Insert<R>(s: Store<R>, id: Id, r: R): (w: Written<Store<R>>)
    ensures WellFormed(s) ==> WellFormed(w.store)
  {
    if !s.available then Written(s, Fail(Repo(Unavailable)))
    else if id in s.records then Written(s, Fail(Repo(Duplicate)))
    else Written(s.(records := s.records[id := r], order := s.order + [id]), Ok)
  }

  /** Repository `Update`: replaces the record stored under `id`. */
  function Replace<R>(s: Store<R>, id: Id, r: R): (w: Written<Store<R>>)
    ensures WellFormed(s) ==> WellFormed(w.store)
  {
    if !s.available then Written(s, Fail(Repo(Unavailable)))
    else if id !in s.records then Written(s, Fail(Repo(NotFound)))
    else Written(s.(records := s.records[id := r]), Ok)
  }

  /** Repository `DeleteById`. */
  function Remove<R>(s: Store<R>, id: Id): (w: Written<Store<R>>)
    ensures WellFormed(s) ==> WellFormed(w.store)
  {
    if !s.available then Written(s, Fail(Repo(Unavailable)))
    else if id !in s.records then Written(s, Fail(Repo(NotFound)))
    else
      var rest := Without(s.order, id);
      assert WellFormed(s) ==> WellFormed(s.(records := s.records - {id}, order := rest)) by {
        if WellFormed(s) {
          forall x | x in s.order && x != id
            ensures x in rest
          {
            var i :| 0 <= i < |s.order| && s.order[i] == x;
          }
        }
      }
      Written(s.(records := s.records - {id}, order := rest), Ok)
  }

  /** A page of the stored records that satisfy `keep` (`GetAll`, `GetByOwnerId`, ...). */
  function ListWhere<R(==)>(s: Store<R>, keep: R -> bool, page: int): (r: Result<seq<R>>)
    ensures r.Success? <==> s.available
    ensures r.Failure? ==> r.error == Repo(Unavailable)
    ensures r.Success? ==> |r.value| <= s.pageSize
    ensures r.Success? ==> forall i :: 0 <= i < |r.value| ==> r.value[i] in s.records.Values && keep(r.value[i])
  {
    if !s.available then Failure(Repo(Unavailable))
    else Success(Page(Filter(Listed(s), keep), page, s.pageSize))
  }

  /** The first element of `s` that satisfies `keep`. */
  function First<T(==)>(s: seq<T>, keep: T -> bool): (r: Option<T>)
    ensures r.Some? ==> r.value in s && keep(r.value)
    ensures r.None? ==> forall i :: 0 <= i < |s| ==> !keep(s[i])
  {
    if s == [] then None
    else if keep(s[0]) then Some(s[0])
    else First(s[1..], keep)
  }

  /** The earliest stored record that satisfies `keep` (`GetByUsername`). */
  function FirstWhere<R(==)>(s: Store<R>, keep: R -> bool): Result<R>
  {
    if !s.available then Failure(Repo(Unavailable))
    else match First(Listed(s), keep)
      case Some(r) => Success(r)
      case None => Failure(Repo(NotFound))
  }

  /** The largest cost among `fields`. */
  function MaxCost(fields: seq<ActivityField>): (m: real)
    requires |fields| > 0
    ensures exists i :: 0 <= i < |fields| && fields[i].cost == m
    ensures forall i :: 0 <= i < |fields| ==> fields[i].cost <= m
  {
    if |fields| == 1 then fields[0].cost
    else
      var rest := MaxCost(fields[1..]);
      assert forall i :: 1 <= i < |fields| ==> fields[i] == fields[1..][i - 1];
      if fields[0].cost >= rest then fields[0].cost else rest
  }

  /** Repository `GetMaxCost`: fails on an empty store. */
  function MaxCostOf(s: Store<ActivityField>): Result<real>
  {
    if !s.available then Failure(Repo(Unavailable))
    else if Listed(s) == [] then Failure(Repo(NotFound))
    else Success(MaxCost(Listed(s)))
  }

  /** The shape every service `Create` has: a validation verdict, then, only when
      it found nothing wrong, one repository `Create` whose error is wrapped. */
  function CreateIfValid<R>(s: Store<R>, id: Id, r: R, verdict: Option<Rule>, ctx: Context): (w: Written<Store<R>>)
    ensures verdict.Some? ==> w == Written(s, Fail(Rejected(verdict.value)))
    ensures verdict.None? ==> (w.status.Ok? <==> s.available && id !in s.records)
    ensures w.status.Ok? ==> w.store.records == s.records[id := r] && w.store.order == s.order + [id]
    ensures w.status.Fail? ==> w.store == s
    ensures w.store.available == s.available && w.store.pageSize == s.pageSize
    ensures WellFormed(s) ==> WellFormed(w.store)
    ensures verdict.None? && w.status.Fail? ==>
      w.status.error == Wrapped(ctx, Repo(if s.available then Duplicate else Unavailable))
  {
    if verdict.Some? then Written(s, Fail(Rejected(verdict.value)))
    else WrapWrite(ctx, Insert(s, id, r))
  }

  /** The abstract user-skill repository: the stored (userId, skillId) pairs. */
  datatype PairStore = PairStore(pairs: seq<UserSkill>, available: bool, pageSize: nat)

  /** Repository `Create` of a pair: refuses a pair already stored. */
  function AddPair(s: PairStore, p: UserSkill): Written<PairStore>
  {
    if !s.available then Written(s, Fail(Repo(Unavailable)))
    else if p in s.pairs then Written(s, Fail(Repo(Duplicate)))
    else Written(s.(pairs := s.pairs + [p]), Ok)
  }

  /** Repository `Delete` of a pair. */
  function RemovePair(s: PairStore, p: UserSkill): (w: Written<PairStore>)
    ensures w.store.available == s.available && w.store.pageSize == s.pageSize
    ensures w.status.Ok? <==> s.available && p in s.pairs
    ensures w.status.Fail? ==> w.store == s && w.status.error == Repo(if s.available then NotFound else Unavailable)
    ensures w.status.Ok? ==> w.store == s.(pairs := Without(s.pairs, p))
    ensures w.status.Ok? ==> forall x :: x in w.store.pairs <==> x in s.pairs && x != p
  {
    if !s.available then Written(s, Fail(Repo(Unavailable)))
    else if p !in s.pairs then Written(s, Fail(Repo(NotFound)))
    else
      var kept := Without(s.pairs, p);
      assert forall x :: x in s.pairs && x != p ==> x in kept by {
        forall x | x in s.pairs && x != p ensures x in kept {
          var i :| 0 <= i < |s.pairs| && s.pairs[i] == x;
        }
      }
      Written(s.(pairs := kept), Ok)
  }

  function UserIdOf(p: UserSkill): Id { p.userId }

  function SkillIdOf(p: UserSkill): Id { p.skillId }

  /** Repository `GetUserSkillsByUserId` (with `key` = `UserIdOf`) and
      `GetUserSkillsBySkillId` (with `key` = `SkillIdOf`): a page of the pairs
      whose key is `id`, in stored order. */
  function PairsWith(s: PairStore, key: UserSkill -> Id, id: Id, page: int): (r: Result<seq<UserSkill>>)
    ensures r.Success? <==> s.available
    ensures r.Failure? ==> r.error == Repo(Unavailable)
    ensures r.Success? ==> |r.value| <= s.pageSize
    ensures r.Success? ==> forall i :: 0 <= i < |r.value| ==> r.value[i] in s.pairs && key(r.value[i]) == id
    ensures r.Success? && Distinct(s.pairs) ==> Distinct(r.value)
  {
    if !s.available then Failure(Repo(Unavailable))
    else
      var mine := Filter(s.pairs, (p: UserSkill) => key(p) == id);
      assert Distinct(s.pairs) ==> Distinct(Page(mine, page, s.pageSize)) by {
        if Distinct(s.pairs) {
          FilterDistinct(s.pairs, (p: UserSkill) => key(p) == id);
          PageDistinct(mine, page, s.pageSize);
        }
      }
      Success(Page(mine, page, s.pageSize))
  }
}
