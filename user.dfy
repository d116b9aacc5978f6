/** The user service: a chain of field checks in front of one repository write;
    the other operations pass straight through to the repository. */
module Users {
  import opened Common
  import opened Domain
  import opened Repository

  /** How many times `c` occurs in `s`. */
  function Count(s: string, c: char): (n: nat)
    ensures n <= |s|
  {
    if s == [] then 0 else (if s[0] == c then 1 else 0) + Count(s[1..], c)
  }

  /** Go's `strings.Split(s, sep)` for a one-character separator: the pieces of
      `s` around every occurrence of `sep`, empty pieces included, and `[""]`
      for the empty string. */
  function Split(s: string, sep: char): (parts: seq<string>)
    ensures |parts| == Count(s, sep) + 1
    ensures forall i :: 0 <= i < |parts| ==> sep !in parts[i]
  {
    if s == [] then [""]
    else
      var rest := Split(s[1..], sep);
      if s[0] == sep then [""] + rest
      else [[s[0]] + rest[0]] + rest[1..]
  }

  /** The pieces glued back together with `sep` between neighbours. */
  function Join(parts: seq<string>, sep: char): string
    requires |parts| >= 1
  {
    if |parts| == 1 then parts[0] else parts[0] + [sep] + Join(parts[1..], sep)
  }

  /** Splitting loses nothing: joining the pieces gives the name back. */
  lemma {:induction false} JoinSplit(s: string, sep: char)
    ensures Join(Split(s, sep), sep) == s
  {
    if s != [] {
      JoinSplit(s[1..], sep);
      var rest := Split(s[1..], sep);
      if s[0] == sep {
        assert ([""] + rest)[1..] == rest;
        assert Join([""] + rest, sep) == [sep] + Join(rest, sep);
      } else if |rest| == 1 {
        assert Join(Split(s, sep), sep) == [s[0]] + rest[0];
      } else {
        var parts := [[s[0]] + rest[0]] + rest[1..];
        assert parts[1..] == rest[1..];
        assert Join(parts, sep) == [s[0]] + rest[0] + [sep] + Join(rest[1..], sep);
        assert Join(rest, sep) == rest[0] + [sep] + Join(rest[1..], sep);
      }
    }
  }

  lemma {:induction false} SplitWithoutSeparator(p: string, sep: char)
    requires sep !in p
    ensures Split(p, sep) == [p]
  {
    if p != [] {
      SplitWithoutSeparator(p[1..], sep);
      assert p[0] != sep && [p[0]] + p[1..] == p;
    }
  }

  lemma {:induction false} SplitFirstPiece(p: string, t: string, sep: char)
    requires sep !in p
    ensures Split(p + [sep] + t, sep) == [p] + Split(t, sep)
  {
    if p == [] {
      assert ([] + [sep] + t)[1..] == t;
    } else {
      var s := p + [sep] + t;
      assert s[0] == p[0] != sep && s[1..] == p[1..] + [sep] + t;
      SplitFirstPiece(p[1..], t, sep);
      var rest := Split(s[1..], sep);
      assert rest[0] == p[1..] && rest[1..] == Split(t, sep);
      assert [p[0]] + p[1..] == p;
    }
  }

  /** Pieces free of the separator split back to themselves after joining. */
  lemma {:induction false} SplitJoin(parts: seq<string>, sep: char)
    requires |parts| >= 1
    requires forall i :: 0 <= i < |parts| ==> sep !in parts[i]
    ensures Split(Join(parts, sep), sep) == parts
  {
    if |parts| == 1 {
      SplitWithoutSeparator(parts[0], sep);
    } else {
      SplitJoin(parts[1..], sep);
      SplitFirstPiece(parts[0], Join(parts[1..], sep), sep);
    }
  }

  /** The full-name rule: splitting on " " must give exactly three pieces, which
      holds exactly when the name has two spaces, empty pieces counting. */
  lemma FullNameHasThreePartsIffTwoSpaces(fullName: string)
    ensures |Split(fullName, ' ')| == 3 <==> Count(fullName, ' ') == 2
  {
  }

  predicate KnownGender(g: string)
  {
    g == "m" || g == "w"
  }

  /** The checks `Create` runs, in their order; the first failed one is the verdict. */
  function Check(u: User): (v: Option<Rule>)
    ensures v == None <==>
      KnownGender(u.gender) && u.city != "" && !u.birthday.IsZero() && u.fullName != ""
      && Count(u.fullName, ' ') == 2
    ensures v == Some(UnknownGender) <==> !KnownGender(u.gender)
    ensures v == Some(MissingCity) <==> KnownGender(u.gender) && u.city == ""
    ensures v == Some(MissingBirthday) <==> KnownGender(u.gender) && u.city != "" && u.birthday.IsZero()
    ensures v == Some(MissingFullName) <==>
      KnownGender(u.gender) && u.city != "" && !u.birthday.IsZero() && u.fullName == ""
    ensures v == Some(WrongWordCount) <==>
      KnownGender(u.gender) && u.city != "" && !u.birthday.IsZero() && u.fullName != ""
      && Count(u.fullName, ' ') != 2
  {
    if u.gender != "m" && u.gender != "w" then Some(UnknownGender)
    else if u.city == "" then Some(MissingCity)
    else if u.birthday.IsZero() then Some(MissingBirthday)
    else if u.fullName == "" then Some(MissingFullName)
    else if |Split(u.fullName, ' ')| != 3 then Some(WrongWordCount)
    else None
  }

  /** Two spaces with an empty piece between them pass the word count; a single
      space does not. */
  lemma {:induction false} WordCountExamples(u: User)
    requires KnownGender(u.gender) && u.city != "" && !u.birthday.IsZero()
    ensures u.fullName == "A  B" ==> Check(u) == None
    ensures u.fullName == "A B" ==> Check(u) == Some(WrongWordCount)
  {
    assert Count("A  B", ' ') == 2 by {
      assert "A  B"[1..] == "  B" && "  B"[1..] == " B" && " B"[1..] == "B" && "B"[1..] == "";
    }
    assert Count("A B", ' ') == 1 by {
      assert "A B"[1..] == " B" && " B"[1..] == "B" && "B"[1..] == "";
    }
  }

  /** `Create`: the checks, then one repository `Create`; nothing is written
      unless every check passes. */
  function Create(repo: Store<User>, u: User): (w: Written<Store<User>>)
    ensures w.status.Ok? <==> Check(u) == None && repo.available && u.id !in repo.records
    ensures w.status.Ok? ==> w.store == repo.(records := repo.records[u.id := u], order := repo.order + [u.id])
    ensures WellFormed(repo) ==> WellFormed(w.store)
    ensures w.status.Fail? ==> w.store == repo
    ensures Check(u).Some? ==> w.status == Fail(Rejected(Check(u).value))
    ensures Check(u) == None && w.status.Fail? ==>
      w.status.error == Wrapped(CreatingUser, Repo(if repo.available then Duplicate else Unavailable))
  {
    CreateIfValid(repo, u.id, u, Check(u), CreatingUser)
  }

  function GetByUsername(repo: Store<User>, username: string): (r: Result<User>)
    requires WellFormed(repo)
    ensures r.Success? ==> r.value in repo.records.Values && r.value.username == username
    ensures r.Success? <==> repo.available && exists id :: id in repo.records && repo.records[id].username == username
    ensures r.Failure? ==> r.error == Wrapped(GettingUserByUsername, Repo(if repo.available then NotFound else Unavailable))
  {
    ListedHoldsStored(repo);
    Wrap(GettingUserByUsername, FirstWhere(repo, (x: User) => x.username == username))
  }

  function GetById(repo: Store<User>, id: Id): (r: Result<User>)
    ensures r.Success? <==> repo.available && id in repo.records
    ensures r.Success? ==> r.value == repo.records[id]
    ensures r.Failure? ==> r.error == Wrapped(GettingUserById, Repo(if repo.available then NotFound else Unavailable))
  {
    Wrap(GettingUserById, Get(repo, id))
  }

  function GetAll(repo: Store<User>, page: int): (r: Result<seq<User>>)
    ensures r.Success? <==> repo.available
    ensures r.Success? ==> |r.value| <= repo.pageSize && forall i :: 0 <= i < |r.value| ==> r.value[i] in repo.records.Values
    ensures r.Failure? ==> r.error == Wrapped(GettingAllUsers, Repo(Unavailable))
  {
    Wrap(GettingAllUsers, ListWhere(repo, (x: User) => true, page))
  }

  /** `Update` checks nothing: it succeeds exactly when the user is stored, even
      a user `Create` would reject. */
  function Update(repo: Store<User>, u: User): (w: Written<Store<User>>)
    ensures w.status.Ok? <==> repo.available && u.id in repo.records
    ensures w.status.Ok? ==> w.store == repo.(records := repo.records[u.id := u])
    ensures WellFormed(repo) ==> WellFormed(w.store)
    ensures w.status.Fail? ==> w.store == repo
    ensures w.status.Fail? ==>
      w.status.error == Wrapped(UpdatingUser, Repo(if repo.available then NotFound else Unavailable))
  {
    WrapWrite(UpdatingUser, Replace(repo, u.id, u))
  }

  function DeleteById(repo: Store<User>, id: Id): (w: Written<Store<User>>)
    ensures w.status.Ok? <==> repo.available && id in repo.records
    ensures w.status.Ok? ==> w.store == repo.(records := repo.records - {id}, order := Without(repo.order, id))
    ensures WellFormed(repo) ==> WellFormed(w.store)
    ensures w.status.Fail? ==> w.store == repo
    ensures w.status.Fail? ==>
      w.status.error == Wrapped(DeletingUser, Repo(if repo.available then NotFound else Unavailable))
  {
    WrapWrite(DeletingUser, Remove(repo, id))
  }
}
