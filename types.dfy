/**
 * The records of the daily log: one versioned snapshot of a calendar day's
 * metrics, and the partial record a caller hands to the entry constructor.
 */
module Types {

  datatype Option<T> = None | Some(value: T)

  /** A calendar date as a day ordinal; ordinals order like YYYY-MM-DD strings. */
  type Date = int

  /** Provenance of a record: an explicit log, or an imputed placeholder. */
  datatype Creator = User | System

  /** One versioned snapshot of a day. Metric values are JavaScript numbers. */
  datatype DailyEntry = DailyEntry(
    id: string,
    date: Date,
    versionNumber: int,
    createdAt: string,
    editedAt: Option<string>,
    createdBy: Creator,
    weightKg: real,
    waistCm: real,
    roadworkKm: real,
    roadworkTimeMin: real,
    pushupsCount: real,
    squatsCount: real,
    plankSec: real,
    boxingRounds: real,
    boxingMinutes: real,
    dietCompliancePct: real,
    waterLiters: real,
    sleepHours: real,
    energyLevel: real,
    disciplineScore: real,
    missedDayFlag: bool,
    isImputed: bool,
    carryForwardFromDate: Option<Date>,
    notes: string
  )

  /**
   * The fields of a partial DailyEntry that the entry constructor reads;
   * `None` is an absent (null or undefined) field.
   */
  datatype Draft = Draft(
    weightKg: Option<real>,
    waistCm: Option<real>,
    roadworkKm: Option<real>,
    roadworkTimeMin: Option<real>,
    pushupsCount: Option<real>,
    squatsCount: Option<real>,
    plankSec: Option<real>,
    boxingRounds: Option<real>,
    boxingMinutes: Option<real>,
    dietCompliancePct: Option<real>,
    waterLiters: Option<real>,
    sleepHours: Option<real>,
    energyLevel: Option<real>,
    disciplineScore: Option<real>,
    notes: Option<string>
  )

  /** The `??` operator: the value if present, else the fallback. */
  function OrElse<T>(o: Option<T>, fallback: T): (r: T)
    ensures o.Some? ==> r == o.value
    ensures o.None? ==> r == fallback
  {
    match o
    case Some(v) => v
    case None => fallback
  }
}
