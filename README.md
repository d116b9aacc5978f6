# Service layer of bmstu-ppo-bl, modelled in Dafny

This project models the business-logic layer of a backend that manages users,
companies, activity fields, contacts, quarterly financial reports and links
between users and skills. Each service checks its input, calls its
repositories, and wraps every repository error with a context prefix. A
failed check returns its error without a prefix. The model keeps every check
in its original order, every error path and every repository call. It proves
what the services promise: which inputs each check rejects, that nothing is
written unless every check passes, how batch creation stops at its first
failure, and how the user–skill joins keep their order.

Layout, one module per file:

- `common.dfy` (`Common`): identifiers, the clock reading `Clock(year, month)`,
  and error values. `Error` is `Rejected(Rule)` for a validation failure,
  `Repo(Fault)` for a repository failure, or `Wrapped(Context, Error)` for
  Go's `fmt.Errorf("...: %w", err)`. Also `Result`, `Status`, and the
  sequence helpers `Filter` and `Page`.
- `domain.dfy` (`Domain`): the records (User, Company, ActivityField,
  Contact, Skill, FinancialReport, Period, UserSkill).
- `repository.dfy` (`Repository`): the abstract repositories. A `Store<R>`
  maps ids to records and remembers the order they were added in. A
  `PairStore` is a sequence of (userId, skillId) pairs. A call fails with
  `Unavailable` when the store is down, `NotFound` for a missing key, or
  `Duplicate` for a key that is already stored. `WellFormed` says that a
  store's order lists every stored id, and only those, exactly once. Every
  write keeps it, and the listing queries that claim to return every match
  require it.
- `fin_report.dfy` (`FinReport`): the financial-report service. It is a
  class whose `repo` field is replaced by `Create`, `CreateByPeriod`,
  `Update` and `DeleteById`, together with the spec functions
  `CreateReport` and `CreateAll`.
- `user.dfy` (`Users`): the user service, and Go's `strings.Split` for a
  one-character separator.
- `user_skill.dfy` (`UserSkills`): the user–skill service. It is a class
  holding the pair, user and skill stores. Its join loop fills an array
  slot by slot, and its delete loop works against the spec function
  `DeletePairs`.
- `activity_field.dfy` (`ActivityFields`), `company.dfy` (`Companies`),
  `contact.dfy` (`Contacts`), `skill.dfy` (`Skills`): services with
  straight-line code, written as functions over store values.

The current time is a parameter `now: Clock`. Each `Create` reads the clock
itself, so `CreateByPeriod` takes one reading per report. The error message
of the period check in `GetByCompany` (services/fin_report/fin_report.go:93)
and the code differ. The message says the end must come *later* than the
start, but the code accepts an equal start and end. The model follows the
code.

## Model

| member | source | states |
|---|---|---|
| FinReport.EndedQuarters | services/fin_report/fin_report.go:49 | `(month-1)/3` is the number of quarters of this year that are over: q with 3q < month <= 3q+3 |
| FinReport.Check | services/fin_report/fin_report.go:27-52 | each rule, in order: negative revenue, then negative costs, then quarter outside 1..4, then year after the current year, then a current-year quarter whose last month (3q) is not before the current month; accepts exactly the reports with revenue, costs >= 0, quarter in 1..4 and the quarter over |
| FinReport.NoReportOfCurrentYearBeforeApril | services/fin_report/fin_report.go:49-52 | in January to March no report of the current year passes |
| FinReport.CreateReport | services/fin_report/fin_report.go:27-62 | succeeds iff the checks pass and the repository accepts; then the store gains exactly this report; on any failure the store is unchanged; a check failure returns its rule, a repository failure is wrapped |
| FinReport.CreateAll | services/fin_report/fin_report.go:65-75 | the loop as a function, report i judged against clock reading i: availability, page size and well-formedness are kept, a non-empty batch that succeeds adds to the store, and every failure carries the batch context on top; the lemmas below give order and stopping |
| FinReport.CreateAllStopsAtFailure | services/fin_report/fin_report.go:65-75 | after a failing report, later reports are never attempted: appending reports to a failed batch changes nothing |
| FinReport.CreateAllContinues | services/fin_report/fin_report.go:65-75 | reports are created in list order: a batch that succeeds hands its store on to the following reports |
| FinReport.CreateAllKeepsStored | services/fin_report/fin_report.go:65-75 | a batch never removes or overwrites a report already stored (no rollback, no overwrite) |
| FinReport.CreateAllStoresEach | services/fin_report/fin_report.go:65-75 | a successful batch passed every report's checks, each against its own clock reading, and stores every report under its id |
| FinReport.CreateAllFailsAtSomeReport | services/fin_report/fin_report.go:66-71 | a failed batch failed at some report k: all before k succeeded, k failed on the store they left, and that store and k's error wrapped once more are the outcome |
| FinReport.CreateAllKeepsEarlierReports | services/fin_report/fin_report.go:65-75 | the reports before the failing one stay stored |
| FinReport.FinReportService.constructor | services/fin_report/fin_report.go:17-25 | the service holds the given repository, whose bookkeeping is consistent |
| FinReport.FinReportService.Create | services/fin_report/fin_report.go:27-63 | the new repository and returned error are those of CreateReport; the repository stays well-formed |
| FinReport.FinReportService.CreateByPeriod | services/fin_report/fin_report.go:65-75 | the loop leaves the repository and error of CreateAll over the batch in order, report i checked against the clock reading of its own Create; the repository stays well-formed |
| FinReport.FinReportService.GetById | services/fin_report/fin_report.go:77-87 | the stored report, or no report and the wrapped repository error |
| FinReport.FinReportService.GetByCompany | services/fin_report/fin_report.go:89-106 | rejected iff (endYear, endQuarter) lies lexicographically before (startYear, startQuarter), so an equal start and end passes and quarters are not range-checked; otherwise succeeds iff the repository is up, returning stored reports of that company within the period, and every such stored report |
| FinReport.FinReportService.Update | services/fin_report/fin_report.go:108-118 | no checks: succeeds iff the report's id is stored, then replaces it, all else unchanged; else unchanged with the wrapped error |
| FinReport.FinReportService.DeleteById | services/fin_report/fin_report.go:120-130 | succeeds iff the id is stored; the new repository is the old one without that id in its records or its order, all else unchanged; else unchanged with the wrapped error |
| Users.Split | services/user/user.go:54 | `strings.Split` on one character yields one more piece than there are separators, and no piece contains the separator |
| Users.JoinSplit | services/user/user.go:54 | joining the pieces with the separator gives the string back |
| Users.SplitJoin | services/user/user.go:54 | pieces free of the separator split back to themselves after joining |
| Users.FullNameHasThreePartsIffTwoSpaces | services/user/user.go:54-57 | the three-part rule holds iff the full name has exactly two spaces, empty pieces counting |
| Users.Check | services/user/user.go:33-57 | in order: gender other than exactly "m" or "w", then empty city, then zero birthday, then empty full name (its own error), then a space count other than two; the first failure is the verdict |
| Users.WordCountExamples | services/user/user.go:54-57 | "A  B" passes the word count, "A B" fails it |
| Users.Create | services/user/user.go:33-68 | on success the store gains exactly this user, appended to the order; written only when every check passes and the repository accepts; otherwise unchanged with the rule or the wrapped repository error; well-formedness kept |
| Users.GetByUsername | services/user/user.go:70-80 | succeeds iff the repository is up and some stored user has that username, returning such a stored user; else the wrapped error |
| Users.GetById | services/user/user.go:82-92 | no checks: the stored user, or the wrapped repository error |
| Users.GetAll | services/user/user.go:94-104 | at most a page of stored users, or no users and the wrapped error |
| Users.Update | services/user/user.go:106-116 | no checks: succeeds iff the user is stored, even a user Create would reject; only that record changes |
| Users.DeleteById | services/user/user.go:118-128 | no checks: succeeds iff the id is stored, then exactly that id leaves records and order; else unchanged with the wrapped error |
| UserSkills.LookupAll | services/user_skill/user_skill.go:65-76 | fills a slice as long as the id list, slot i holding the record under id i; succeeds iff every lookup succeeds; else no slice and the first failed lookup's wrapped error |
| UserSkills.DeletePairs | services/user_skill/user_skill.go:111-117 | deleting pairs one by one never changes whether the store is up or its page size |
| UserSkills.DeletePairsRemovesListed | services/user_skill/user_skill.go:111-119 | a delete loop that finishes removes exactly the listed pairs and nothing else |
| UserSkills.DeletePairsStopsAtFailure | services/user_skill/user_skill.go:111-117 | after a failed delete, later pairs are never attempted |
| UserSkills.DeletePairsFailsAtSomePair | services/user_skill/user_skill.go:111-117 | a failed loop failed at some pair k, after every earlier delete succeeded, with k's error wrapped |
| UserSkills.DeletePairsKeepsEarlierDeletions | services/user_skill/user_skill.go:111-117 | the deletions before the failing one remain |
| UserSkills.DeletePairsSucceeds | services/user_skill/user_skill.go:111-119 | on a store that stays up, deleting distinct stored pairs cannot fail (a fact about the model store; see "Left out") |
| UserSkills.AddPairKeepsDistinct | services/user_skill/user_skill.go:32-42 | creating a pair keeps the stored pairs free of duplicates |
| UserSkills.DeletingFirstPageSucceeds | services/user_skill/user_skill.go:102-120 | with a store that stays up and holds no duplicate pair, deleting a user's skills succeeds and removes exactly the pairs of page 0 (a fact about the model store; see "Left out") |
| UserSkills.UserSkillService.constructor | services/user_skill/user_skill.go:18-30 | the service holds the given pair, user and skill repositories |
| UserSkills.UserSkillService.Create | services/user_skill/user_skill.go:32-42 | the pair is appended unchanged iff the repository accepts it; otherwise nothing changes and the error is wrapped |
| UserSkills.UserSkillService.Delete | services/user_skill/user_skill.go:44-54 | the pair is removed iff it is stored: the new pair list is the old one without it, the rest in order, availability and page size kept; otherwise nothing changes and the error is wrapped |
| UserSkills.UserSkillService.GetSkillsForUser | services/user_skill/user_skill.go:56-77 | a failed pair query returns its error before any skill lookup; otherwise the result has one entry per pair, entry i being the skill of pair i, or fails with no list at the first pair whose skill lookup fails |
| UserSkills.UserSkillService.GetUsersForSkill | services/user_skill/user_skill.go:79-100 | the same for users: entry i is the user of pair i, in pair order, or the first failed lookup's error |
| UserSkills.UserSkillService.DeleteSkillsForUser | services/user_skill/user_skill.go:102-120 | a failed page-0 query changes nothing; otherwise the loop leaves the store and error of DeletePairs over page 0 in order |
| ActivityFields.Check | services/activity_field/activity_field.go:30-44 | in order: empty name, then empty description, then a cost of magnitude below 1e-7 |
| ActivityFields.Create | services/activity_field/activity_field.go:30-55 | written, exactly this field appended, only for a field that passes all three checks, so a stored new field never has a near-zero cost; otherwise unchanged; well-formedness kept |
| ActivityFields.DeleteById | services/activity_field/activity_field.go:57-67 | succeeds iff the id is stored, then exactly that id leaves records and order; else unchanged with the wrapped error |
| ActivityFields.Update | services/activity_field/activity_field.go:69-79 | no checks: succeeds iff the field is stored, even with a zero cost; only that record changes |
| ActivityFields.GetById | services/activity_field/activity_field.go:81-91 | the stored field, or no field and the wrapped error |
| ActivityFields.GetCostByCompanyId | services/activity_field/activity_field.go:93-110 | the cost of the field whose id is the company's activity-field id; (0, error of the company lookup) if that lookup fails, else (0, error of the field lookup) if that one fails |
| ActivityFields.CostLookupStopsAtCompany | services/activity_field/activity_field.go:96-100 | when the company lookup fails the field repository is not consulted: any field store gives the same answer |
| ActivityFields.GetMaxCost | services/activity_field/activity_field.go:112-122 | the largest cost among all stored fields, attained by one of them; fails with NotFound iff the store is empty; (0, wrapped error) on failure |
| ActivityFields.GetAll | services/activity_field/activity_field.go:124-134 | at most a page of stored fields, or the wrapped error |
| Companies.Check | services/company/company.go:26-35 | empty name rejected first, then empty city |
| Companies.Create | services/company/company.go:26-46 | the repository gains exactly this company only when name and city are both non-empty and it accepts; otherwise unchanged with the rule or the wrapped error |
| Companies.GetById | services/company/company.go:48-58 | the stored company, or no company together with the wrapped error |
| Companies.GetByOwnerId | services/company/company.go:60-70 | at most a page of the owner's stored companies, or the wrapped error |
| Companies.GetAll | services/company/company.go:72-82 | at most a page of stored companies, or the wrapped error |
| Companies.Update | services/company/company.go:84-94 | no checks: succeeds iff the company is stored, even one with an empty name or city; only that record changes |
| Companies.DeleteById | services/company/company.go:96-106 | no checks: succeeds iff the id is stored, then exactly that id leaves records and order |
| Contacts.Check | services/contact/contact.go:26-35 | empty name rejected first, then empty value |
| Contacts.Create | services/contact/contact.go:26-46 | the repository gains exactly this contact only when name and value are both non-empty and it accepts; otherwise unchanged |
| Contacts.GetById | services/contact/contact.go:48-58 | the stored contact, or the wrapped error |
| Contacts.GetByOwnerId | services/contact/contact.go:60-70 | at most a page of the owner's stored contacts, or no contacts together with the wrapped error |
| Contacts.Update | services/contact/contact.go:72-82 | no checks: succeeds iff the contact is stored; only that record changes |
| Contacts.DeleteById | services/contact/contact.go:84-94 | succeeds iff the id is stored, then exactly that id leaves records and order |
| Skills.Check | services/skill/skill.go:26-35 | empty name rejected first, then empty description |
| Skills.Create | services/skill/skill.go:26-46 | the repository gains exactly this skill only when name and description are both non-empty and it accepts; otherwise unchanged |
| Skills.GetById | services/skill/skill.go:48-58 | the stored skill, or the wrapped error |
| Skills.GetAll | services/skill/skill.go:60-70 | at most a page of stored skills, or no skills together with the wrapped error |
| Skills.Update | services/skill/skill.go:72-82 | no checks: succeeds iff the skill is stored; only that record changes |
| Skills.DeleteById | services/skill/skill.go:84-94 | succeeds iff the id is stored, then exactly that id leaves records and order |

## Left out

- The authentication service (`services/auth/auth.go`: `Register`, `Login`). Apart from two empty-string checks, it calls a password-hashing library and JWT generation that are not part of this model.
- The generated gomock code (`domain/mocks/user.go`). It contains no business logic.
- Logging, `context.Background()` and the Russian message texts. Each message is a `Rule` or `Context` constructor; the same text gives the same constructor.
- `time.Now()`. Each reading is a `Clock` parameter, whose month lies in 1..12 as `time.Month` does. `CreateByPeriod` takes one reading per report, because each `Create` reads the clock afresh. The readings are not required to be increasing.
- Floating point. The activity-field cost is a float32 in the source. Revenue and costs are compared with `< 0`, which suggests they are floating-point too, but their Go types are not part of this model. All three are `real` here, so floating-point rounding is not modelled. The zero-cost check `math.Abs(float64(cost)) < 1e-7` becomes `NearZero`, a comparison on reals.
- NaN and infinities. Reals cannot express them. If revenue and costs are floating-point, as their `< 0` comparison suggests, a NaN revenue or costs passes every check, because `NaN < 0` is false (services/fin_report/fin_report.go:28,33). A +Inf revenue or costs also passes, while −Inf is rejected as negative. A NaN cost passes because `math.Abs(NaN) < 1e-7` is false, and an infinite cost of either sign passes too (services/activity_field/activity_field.go:41). The model does not capture this.
- `time.Time`. A birthday is an `Instant` counted from Go's zero time, and `IsZero` holds only at that zero.
- Real repository behaviour. Persistence, id generation and SQL are outside this model. The stores here also fix the repositories' semantics: what counts as a duplicate, a page of `pageSize` records in insertion order, `GetByCompany` as a filter on company and period, `GetByUsername` returning the first match, and `GetMaxCost` failing on an empty store.
- Transient repository failures. A store is up or down for a whole service call, because `available` is part of the store value and no call changes it. A repository call that fails part-way through a loop for an outside reason, such as a dropped connection on the second delete, is not modelled. Apart from that flag, a call fails only because of what the store holds (`NotFound`, `Duplicate`).
- UserSkills.DeletePairsSucceeds: holds only because of that abstraction. On a real repository the delete loop of `DeleteSkillsForUser` (services/user_skill/user_skill.go:111-117) can still fail part-way.
- UserSkills.DeletingFirstPageSucceeds: holds only because of that abstraction, for the same reason. In the model, the failed-delete exit at services/user_skill/user_skill.go:112-115 is reached only on a store that holds a duplicate pair.
- Pointer aliasing. Records are passed as values. The model does not capture a repository changing a record through the pointer it receives, or `CreateByPeriod` handing `Create` the address of its loop variable.
- The `NewService` constructors of the straight-line services. Those services hold no state of their own, so they are functions of their stores. The unused company and activity-field repositories of the user service are dropped.
- `FinancialReportByPeriod` carries only its list of reports, the one field the code reads.
- Users.GetAll: states that the result is at most one page of stored users, not which page, because pagination belongs to the repository.
- Companies.GetAll: states that the result is at most one page of stored companies, not which page, for the same reason.
- Companies.GetByOwnerId: states that the result is at most one page of the owner's stored companies, not which page, for the same reason.
- Contacts.GetByOwnerId: states that the result is at most one page of the owner's stored contacts, not which page, for the same reason.
- Skills.GetAll: states that the result is at most one page of stored skills, not which page, for the same reason.
- ActivityFields.GetAll: states that the result is at most one page of stored fields, not which page, for the same reason.
- Users.GetByUsername: states that a matching stored user is returned, not which one when several share the username, because that choice belongs to the repository.
