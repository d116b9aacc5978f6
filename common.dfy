/** Shared vocabulary of the service layer: identifiers, the clock reading,
    the error values the services return and a few sequence helpers. */
module Common {

  /** The repository's UUIDs, abstracted to naturals. */
  type Id = nat

  /** A month of the year as Go's `time.Month` numbers it: 1 (January) to 12 (December). */
  type Month = m: int | 1 <= m <= 12 witness 1

  /** The reading of `time.Now()` that the financial-report service consults, passed in. */
  datatype Clock = Clock(year: int, month: Month)

  datatype Option<+T> = None | Some(value: T)

  /** One constructor per validation message the services can return. Services that
      print the same message (the missing city of a user and of a company) share it. */
  datatype Rule =
    // financial reports
    | NegativeRevenue | NegativeCosts | QuarterOutOfRange | FutureYear | QuarterNotFinished
    | PeriodReversed
    // users
    | UnknownGender | MissingCity | MissingBirthday | MissingFullName | WrongWordCount
    // activity fields
    | MissingFieldName | MissingFieldDescription | ZeroCost
    // companies, contacts, skills
    | MissingCompanyName | MissingContactName | MissingContactValue
    | MissingSkillName | MissingSkillDescription

  /** Why an abstract repository refused a call. */
  datatype Fault = Unavailable | NotFound | Duplicate

  /** One constructor per prefix a service puts in front of a wrapped error. */
  datatype Context =
    // financial reports
    | CreatingReport | CreatingReportsForPeriod | GettingReportById | GettingReportsByCompany
    | UpdatingReport | DeletingReport
    // users
    | CreatingUser | GettingUserByUsername | GettingUserById | GettingAllUsers
    | UpdatingUser | DeletingUser
    // user-skill links
    | LinkingUserSkill | UnlinkingUserSkill | GettingPairsByUser | GettingPairsBySkill
    | GettingSkillBySkillId | GettingUserByUserId | DeletingPair
    // activity fields
    | CreatingField | DeletingField | UpdatingField | GettingFieldById | GettingMaxCost
    | GettingAllFields
    // companies
    | CreatingCompany | GettingCompanyById | GettingCompaniesByOwner | GettingAllCompanies
    | UpdatingCompany | DeletingCompany
    // contacts
    | CreatingContact | GettingContactById | GettingContactsByOwner | UpdatingContact
    | DeletingContact
    // skills
    | CreatingSkill | GettingSkillById | GettingAllSkills | UpdatingSkill | DeletingSkill

  /** A validation failure, a repository failure, or an error wrapped with a
      context prefix (Go's `fmt.Errorf("...: %w", err)`). */
  datatype Error =
    | Rejected(rule: Rule)
    | Repo(fault: Fault)
    | Wrapped(context: Context, cause: Error)

  /** The `error` a Go method returns alone: nil or an error. */
  datatype Status = Ok | Fail(error: Error)

  /** A Go `(value, error)` pair where the value is nil whenever the error is not. */
  datatype Result<+T> = Success(value: T) | Failure(error: Error)

  /** The state of a store after a write, together with the write's status. */
  datatype Written<S> = Written(store: S, status: Status)

  /** Wraps the error of a failed result with a context; a success passes unchanged. */
  function Wrap<T>(ctx: Context, r: Result<T>): Result<T>
  {
    match r
    case Success(v) => Success(v)
    case Failure(e) => Failure(Wrapped(ctx, e))
  }

  /** Wraps the error of a failed write with a context; the store is kept. */
  function WrapWrite<S>(ctx: Context, w: Written<S>): Written<S>
  {
    match w.status
    case Ok => w
    case Fail(e) => Written(w.store, Fail(Wrapped(ctx, e)))
  }

  /** The elements of `s` that satisfy `keep`, in their order. */
  function Filter<T>(s: seq<T>, keep: T -> bool): (r: seq<T>)
    ensures |r| <= |s|
    ensures forall i :: 0 <= i < |r| ==> r[i] in s && keep(r[i])
    ensures forall i :: 0 <= i < |s| && keep(s[i]) ==> s[i] in r
  {
    if s == [] then []
    else (if keep(s[0]) then [s[0]] else []) + Filter(s[1..], keep)
  }

  /** `s` with every occurrence of `x` taken out, the rest in its order. */
  function Without<T(==)>(s: seq<T>, x: T): (r: seq<T>)
    ensures forall i :: 0 <= i < |r| ==> r[i] in s && r[i] != x
    ensures forall i :: 0 <= i < |s| && s[i] != x ==> s[i] in r
    ensures Distinct(s) ==> Distinct(r)
  {
    var keep := (y: T) => y != x;
    assert Distinct(s) ==> Distinct(Filter(s, keep)) by {
      if Distinct(s) {
        FilterDistinct(s, keep);
      }
    }
    Filter(s, keep)
  }

  predicate Distinct<T(==)>(s: seq<T>)
  {
    forall i, j :: 0 <= i < j < |s| ==> s[i] != s[j]
  }

  lemma {:induction false} FilterDistinct<T>(s: seq<T>, keep: T -> bool)
    requires Distinct(s)
    ensures Distinct(Filter(s, keep))
  {
    if s != [] {
      FilterDistinct(s[1..], keep);
      var rest := Filter(s[1..], keep);
      if keep(s[0]) {
        assert s[0] !in s[1..];
        assert s[0] !in rest;
        var r := [s[0]] + rest;
        forall i, j | 0 <= i < j < |r| ensures r[i] != r[j] {
          if i == 0 {
            assert r[j] == rest[j - 1];
          }
        }
      }
    }
  }

  /** Page number `page` (counted from 0) of `s` cut into pages of `size`
      elements; a negative page or one past the end is empty. */
  function Page<T>(s: seq<T>, page: int, size: nat): (p: seq<T>)
    ensures |p| <= size
    ensures forall i :: 0 <= i < |p| ==> 0 <= page && page * size + i < |s| && p[i] == s[page * size + i]
  {
    if page < 0 then []
    else
      var start := page * size;
      if start >= |s| then []
      else s[start .. if start + size < |s| then start + size else |s|]
  }

  lemma PageDistinct<T>(s: seq<T>, page: int, size: nat)
    requires Distinct(s)
    ensures Distinct(Page(s, page, size))
  {
    var p := Page(s, page, size);
    forall i, j | 0 <= i < j < |p| ensures p[i] != p[j] {
      assert p[i] == s[page * size + i] && p[j] == s[page * size + j];
    }
  }
}
