/** The records the services validate and store. */
module Domain {
  import opened Common

  /** A point in time, counted from Go's zero `time.Time`; `IsZero` holds of that zero value. */
  datatype Instant = Instant(sinceZero: int)
  {
    predicate IsZero() { sinceZero == 0 }
  }

  datatype User = User(id: Id, username: string, fullName: string, gender: string, city: string,
                       birthday: Instant)

  datatype Company = Company(id: Id, ownerId: Id, activityFieldId: Id, name: string, city: string)

  /** An activity field; `cost` is its weight, a `float32` in the source. */
  datatype ActivityField = ActivityField(id: Id, name: string, description: string, cost: real)

  datatype Contact = Contact(id: Id, ownerId: Id, name: string, value: string)

  datatype Skill = Skill(id: Id, name: string, description: string)

  datatype FinancialReport = FinancialReport(id: Id, companyId: Id, year: int, quarter: int,
                                             revenue: real, costs: real)

  /** A batch of reports, as `CreateByPeriod` takes and `GetByCompany` returns it. */
  datatype ReportsByPeriod = ReportsByPeriod(reports: seq<FinancialReport>)

  /** A span of quarters, from (startYear, startQuarter) to (endYear, endQuarter). */
  datatype Period = Period(startYear: int, startQuarter: int, endYear: int, endQuarter: int)

  /** A link between a user and a skill. */
  datatype UserSkill = UserSkill(userId: Id, skillId: Id)
}
