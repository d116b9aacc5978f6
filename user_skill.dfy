/** The user-skill service: links between users and skills, the joins that
    turn a page of links into skills or users, and the loop that deletes all
    of a user's links. */
module UserSkills {
  import opened Common
  import opened Domain
  import opened Repository

  /** The key of each pair, in pair order. */
  function IdsOf(ps: seq<UserSkill>, key: UserSkill -> Id): (ids: seq<Id>)
    ensures |ids| == |ps| && forall i :: 0 <= i < |ps| ==> ids[i] == key(ps[i])
  {
    seq(|ps|, i requires 0 <= i < |ps| => key(ps[i]))
  }

  /** Every id can be looked up in the store. */
  predicate AllFound<R>(store: Store<R>, ids: seq<Id>)
  {
    forall i :: 0 <= i < |ids| ==> Get(store, ids[i]).Success?
  }

  /** `ids[k]` is the first id whose lookup fails. */
  predicate FirstMissing<R>(store: Store<R>, ids: seq<Id>, k: int)
  {
    && 0 <= k < |ids|
    && (forall j :: 0 <= j < k ==> Get(store, ids[j]).Success?)
    && Get(store, ids[k]).Failure?
  }

  /** `out` holds, position by position, the record stored under each id. */
  predicate Joined<R(==)>(out: seq<R>, store: Store<R>, ids: seq<Id>)
  {
    |out| == |ids| && forall i :: 0 <= i < |ids| ==> ids[i] in store.records && out[i] == store.records[ids[i]]
  }

  /** The join loop of `GetSkillsForUser` and `GetUsersForSkill`: a slice as long
      as `ids` is filled position by position with the looked-up records; the
      first failed lookup ends the call with its wrapped error and no slice. */
  method LookupAll<R(0,==)>(store: Store<R>, ids: seq<Id>, ctx: Context) returns (r: Result<seq<R>>)
    ensures r.Success? <==> AllFound(store, ids)
    ensures r.Success? ==> Joined(r.value, store, ids)
    ensures r.Failure? ==> exists k :: FirstMissing(store, ids, k) && r.error == Wrapped(ctx, Get(store, ids[k]).error)
  {
    var found := new R[|ids|];
    for i := 0 to |ids|
      invariant forall j :: 0 <= j < i ==> Get(store, ids[j]).Success? && found[j] == store.records[ids[j]]
    {
      var x := Get(store, ids[i]);
      if x.Failure? {
        assert FirstMissing(store, ids, i);
        return Failure(Wrapped(ctx, x.error));
      }
      found[i] := x.value;
    }
    return Success(found[..]);
  }

  /** The loop of `DeleteSkillsForUser`: repository `Delete` on each pair in
      order, stopping at the first failure, whose error is wrapped. */
  function DeletePairs(s: PairStore, ps: seq<UserSkill>): (w: Written<PairStore>)
    ensures w.store.available == s.available && w.store.pageSize == s.pageSize
    decreases |ps|
  {
    if ps == [] then Written(s, Ok)
    else
      var first := RemovePair(s, ps[0]);
      if first.status.Fail? then Written(first.store, Fail(Wrapped(DeletingPair, first.status.error)))
      else DeletePairs(first.store, ps[1..])
  }

  /** A delete loop that finished removed exactly the listed pairs. */
  lemma {:induction false} DeletePairsRemovesListed(s: PairStore, ps: seq<UserSkill>)
    requires DeletePairs(s, ps).status.Ok?
    ensures forall x :: x in DeletePairs(s, ps).store.pairs <==> x in s.pairs && x !in ps
    decreases |ps|
  {
    if ps != [] {
      var first := RemovePair(s, ps[0]);
      DeletePairsRemovesListed(first.store, ps[1..]);
      assert ps == [ps[0]] + ps[1..];
    }
  }

  /** Once a delete fails, later pairs are never attempted. */
  lemma {:induction false} DeletePairsStopsAtFailure(s: PairStore, a: seq<UserSkill>, b: seq<UserSkill>)
    requires DeletePairs(s, a).status.Fail?
    ensures DeletePairs(s, a + b) == DeletePairs(s, a)
    decreases |a|
  {
    assert (a + b)[0] == a[0] && (a + b)[1..] == a[1..] + b;
    var first := RemovePair(s, a[0]);
    if first.status.Ok? {
      DeletePairsStopsAtFailure(first.store, a[1..], b);
    }
  }

  /** The delete loop over `ps` failed at pair `k`, after the pairs before it
      were deleted; the store they left and pair k's wrapped error are the outcome. */
  ghost predicate DeleteFailedAt(s: PairStore, ps: seq<UserSkill>, k: int)
  {
    && 0 <= k < |ps|
    && DeletePairs(s, ps[..k]).status.Ok?
    && var before := DeletePairs(s, ps[..k]).store;
    && RemovePair(before, ps[k]).status.Fail?
    && DeletePairs(s, ps) == Written(before, Fail(Wrapped(DeletingPair, RemovePair(before, ps[k]).status.error)))
  }

  lemma {:induction false} DeletePairsFailsAtSomePair(s: PairStore, ps: seq<UserSkill>)
    requires DeletePairs(s, ps).status.Fail?
    ensures exists k :: DeleteFailedAt(s, ps, k)
    decreases |ps|
  {
    var first := RemovePair(s, ps[0]);
    if first.status.Fail? {
      assert ps[..0] == [];
      assert DeleteFailedAt(s, ps, 0);
    } else {
      DeletePairsFailsAtSomePair(first.store, ps[1..]);
      var k :| DeleteFailedAt(first.store, ps[1..], k);
      assert ps[..k + 1][0] == ps[0] && ps[..k + 1][1..] == ps[1..][..k];
      assert ps[k + 1] == ps[1..][k];
      assert DeleteFailedAt(s, ps, k + 1);
    }
  }

  /** Deletions made before the failing one remain. */
  lemma DeletePairsKeepsEarlierDeletions(s: PairStore, ps: seq<UserSkill>, k: int)
    requires DeleteFailedAt(s, ps, k)
    ensures forall x :: x in DeletePairs(s, ps).store.pairs <==> x in s.pairs && x !in ps[..k]
  {
    DeletePairsRemovesListed(s, ps[..k]);
  }

  /** On an available store, deleting distinct stored pairs cannot fail. */
  lemma {:induction false} DeletePairsSucceeds(s: PairStore, ps: seq<UserSkill>)
    requires s.available && Distinct(ps)
    requires forall i :: 0 <= i < |ps| ==> ps[i] in s.pairs
    ensures DeletePairs(s, ps).status.Ok?
    decreases |ps|
  {
    if ps != [] {
      var first := RemovePair(s, ps[0]);
      forall i | 0 <= i < |ps| - 1
        ensures ps[1..][i] in first.store.pairs
      {
        assert ps[1..][i] == ps[i + 1] != ps[0];
      }
      DeletePairsSucceeds(first.store, ps[1..]);
    }
  }

  /** Repository `Create` of a pair keeps the stored pairs free of duplicates. */
  lemma AddPairKeepsDistinct(s: PairStore, p: UserSkill)
    requires Distinct(s.pairs)
    ensures Distinct(AddPair(s, p).store.pairs)
  {
  }

  /** With an available store free of duplicate pairs, `DeleteSkillsForUser`
      succeeds and removes exactly the user's first page of pairs. */
  lemma DeletingFirstPageSucceeds(s: PairStore, userId: Id)
    requires s.available && Distinct(s.pairs)
    ensures PairsWith(s, UserIdOf, userId, 0).Success?
    ensures DeletePairs(s, PairsWith(s, UserIdOf, userId, 0).value).status.Ok?
    ensures forall x :: x in DeletePairs(s, PairsWith(s, UserIdOf, userId, 0).value).store.pairs <==>
      x in s.pairs && x !in PairsWith(s, UserIdOf, userId, 0).value
  {
    var ps := PairsWith(s, UserIdOf, userId, 0).value;
    DeletePairsSucceeds(s, ps);
    DeletePairsRemovesListed(s, ps);
  }

  class UserSkillService {
    var pairRepo: PairStore
    var userRepo: Store<User>
    var skillRepo: Store<Skill>

    constructor (pairRepo: PairStore, userRepo: Store<User>, skillRepo: Store<Skill>)
      ensures this.pairRepo == pairRepo && this.userRepo == userRepo && this.skillRepo == skillRepo
    {
      this.pairRepo := pairRepo;
      this.userRepo := userRepo;
      this.skillRepo := skillRepo;
    }

    /** `Create`: the pair goes to the repository unchanged; only its error is wrapped. */
    method Create(pair: UserSkill) returns (status: Status)
      modifies this
      ensures userRepo == old(userRepo) && skillRepo == old(skillRepo)
      ensures status.Ok? <==> old(pairRepo).available && pair !in old(pairRepo).pairs
      ensures status.Ok? ==> pairRepo == old(pairRepo).(pairs := old(pairRepo).pairs + [pair])
      ensures status.Fail? ==> pairRepo == old(pairRepo)
      ensures status.Fail? ==>
        status.error == Wrapped(LinkingUserSkill, Repo(if old(pairRepo).available then Duplicate else Unavailable))
    {
      var w := AddPair(pairRepo, pair);
      pairRepo := w.store;
      status := WrapWrite(LinkingUserSkill, w).status;
    }

    /** `Delete`: the pair goes to the repository unchanged; only its error is wrapped. */
    method Delete(pair: UserSkill) returns (status: Status)
      modifies this
      ensures userRepo == old(userRepo) && skillRepo == old(skillRepo)
      ensures status.Ok? <==> old(pairRepo).available && pair in old(pairRepo).pairs
      ensures status.Ok? ==> pairRepo == old(pairRepo).(pairs := Without(old(pairRepo).pairs, pair))
      ensures status.Ok? ==> forall x :: x in pairRepo.pairs <==> x in old(pairRepo).pairs && x != pair
      ensures status.Fail? ==> pairRepo == old(pairRepo)
      ensures status.Fail? ==>
        status.error == Wrapped(UnlinkingUserSkill, Repo(if old(pairRepo).available then NotFound else Unavailable))
    {
      var w := RemovePair(pairRepo, pair);
      pairRepo := w.store;
      status := WrapWrite(UnlinkingUserSkill, w).status;
    }

    /** The skills of a page of the user's pairs, in pair order. */
    method GetSkillsForUser(userId: Id, page: int) returns (r: Result<seq<Skill>>)
      ensures PairsWith(pairRepo, UserIdOf, userId, page).Failure? ==>
        r == Failure(Wrapped(GettingPairsByUser, PairsWith(pairRepo, UserIdOf, userId, page).error))
      ensures PairsWith(pairRepo, UserIdOf, userId, page).Success? ==>
        var ids := IdsOf(PairsWith(pairRepo, UserIdOf, userId, page).value, SkillIdOf);
        && (r.Success? <==> AllFound(skillRepo, ids))
        && (r.Success? ==> Joined(r.value, skillRepo, ids))
        && (r.Failure? ==> exists k :: FirstMissing(skillRepo, ids, k)
                                      && r.error == Wrapped(GettingSkillBySkillId, Get(skillRepo, ids[k]).error))
    {
      var pairs := PairsWith(pairRepo, UserIdOf, userId, page);
      if pairs.Failure? {
        return Failure(Wrapped(GettingPairsByUser, pairs.error));
      }
      r := LookupAll(skillRepo, IdsOf(pairs.value, SkillIdOf), GettingSkillBySkillId);
    }

    /** The users of a page of the skill's pairs, in pair order. */
    method GetUsersForSkill(skillId: Id, page: int) returns (r: Result<seq<User>>)
      ensures PairsWith(pairRepo, SkillIdOf, skillId, page).Failure? ==>
        r == Failure(Wrapped(GettingPairsBySkill, PairsWith(pairRepo, SkillIdOf, skillId, page).error))
      ensures PairsWith(pairRepo, SkillIdOf, skillId, page).Success? ==>
        var ids := IdsOf(PairsWith(pairRepo, SkillIdOf, skillId, page).value, UserIdOf);
        && (r.Success? <==> AllFound(userRepo, ids))
        && (r.Success? ==> Joined(r.value, userRepo, ids))
        && (r.Failure? ==> exists k :: FirstMissing(userRepo, ids, k)
                                      && r.error == Wrapped(GettingUserByUserId, Get(userRepo, ids[k]).error))
    {
      var pairs := PairsWith(pairRepo, SkillIdOf, skillId, page);
      if pairs.Failure? {
        return Failure(Wrapped(GettingPairsBySkill, pairs.error));
      }
      r := LookupAll(userRepo, IdsOf(pairs.value, UserIdOf), GettingUserByUserId);
    }

    /** Deletes the pairs of the user's first page one by one. */
    method DeleteSkillsForUser(userId: Id) returns (status: Status)
      modifies this
      ensures userRepo == old(userRepo) && skillRepo == old(skillRepo)
      ensures PairsWith(old(pairRepo), UserIdOf, userId, 0).Failure? ==>
        pairRepo == old(pairRepo) && status == Fail(Wrapped(GettingPairsByUser, PairsWith(old(pairRepo), UserIdOf, userId, 0).error))
      ensures PairsWith(old(pairRepo), UserIdOf, userId, 0).Success? ==>
        Written(pairRepo, status) == DeletePairs(old(pairRepo), PairsWith(old(pairRepo), UserIdOf, userId, 0).value)
    {
      var pairs := PairsWith(pairRepo, UserIdOf, userId, 0);
      if pairs.Failure? {
        return Fail(Wrapped(GettingPairsByUser, pairs.error));
      }
      var ps := pairs.value;
      var i := 0;
      while i < |ps|
        invariant 0 <= i <= |ps|
        invariant userRepo == old(userRepo) && skillRepo == old(skillRepo)
        invariant DeletePairs(old(pairRepo), ps) == DeletePairs(pairRepo, ps[i..])
      {
        assert ps[i..][0] == ps[i] && ps[i..][1..] == ps[i + 1..];
        var w := RemovePair(pairRepo, ps[i]);
        pairRepo := w.store;
        if w.status.Fail? {
          return Fail(Wrapped(DeletingPair, w.status.error));
        }
        i := i + 1;
      }
      assert ps[i..] == [];
      return Ok;
    }
  }
}
