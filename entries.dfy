/**
 * The two ways a record is built: the user-facing constructor that fills
 * defaults and numbers the version, and the placeholder the imputation scan
 * writes for a day nobody logged.
 */
module Entries {
  import opened Types
  import Plan
  import opened Projection

  const MissedDayNotes: string := "Auto-generated missed day"

  /** A body measurement: the given value, else a non-zero previous value, else the baseline. */
  function CarriedMeasure(given: Option<real>, previous: Option<real>, baseline: real): (r: real)
    ensures given.Some? ==> r == given.value
    ensures given.None? && previous.Some? && previous.value != 0.0 ==> r == previous.value
    ensures given.None? && (previous.None? || previous.value == 0.0) ==> r == baseline
  {
    match given
    case Some(v) => v
    case None => if previous.Some? && previous.value != 0.0 then previous.value else baseline
  }

  function WeightOf(previous: Option<DailyEntry>): Option<real>
  {
    if previous.Some? then Some(previous.value.weightKg) else None
  }

  function WaistOf(previous: Option<DailyEntry>): Option<real>
  {
    if previous.Some? then Some(previous.value.waistCm) else None
  }

  /**
   * A user record for `date`. `id` and `now` stand for the generated
   * identifier and the current timestamp.
   */
  function CreateNewEntry(id: string, now: string, date: Date, data: Draft,
                          previous: Option<DailyEntry>, isEdit: bool): (e: DailyEntry)
    ensures e.id == id && e.date == date && e.createdAt == now
    ensures e.versionNumber == if isEdit && previous.Some? then previous.value.versionNumber + 1 else 1
    ensures e.editedAt.Some? <==> isEdit
    ensures e.createdBy == User && !e.missedDayFlag && !e.isImputed && e.carryForwardFromDate == None
    ensures e.weightKg == CarriedMeasure(data.weightKg, WeightOf(previous), Plan.InitialWeightKg)
    ensures e.waistCm == CarriedMeasure(data.waistCm, WaistOf(previous), Plan.InitialWaistCm)
    ensures e.roadworkKm == OrElse(data.roadworkKm, 0.0) && e.roadworkTimeMin == OrElse(data.roadworkTimeMin, 0.0)
    ensures e.pushupsCount == OrElse(data.pushupsCount, 0.0) && e.squatsCount == OrElse(data.squatsCount, 0.0)
    ensures e.plankSec == OrElse(data.plankSec, 0.0)
    ensures e.boxingRounds == OrElse(data.boxingRounds, 0.0) && e.boxingMinutes == OrElse(data.boxingMinutes, 0.0)
    ensures e.dietCompliancePct == OrElse(data.dietCompliancePct, 0.0) && e.waterLiters == OrElse(data.waterLiters, 0.0)
    ensures e.sleepHours == OrElse(data.sleepHours, 0.0)
    ensures e.energyLevel == OrElse(data.energyLevel, 3.0) && e.disciplineScore == OrElse(data.disciplineScore, 5.0)
    ensures e.notes == OrElse(data.notes, "")
  {
    DailyEntry(
      id := id,
      date := date,
      versionNumber := if isEdit && previous.Some? then previous.value.versionNumber + 1 else 1,
      createdAt := now,
      editedAt := if isEdit then Some(now) else None,
      createdBy := User,
      weightKg := CarriedMeasure(data.weightKg, WeightOf(previous), Plan.InitialWeightKg),
      waistCm := CarriedMeasure(data.waistCm, WaistOf(previous), Plan.InitialWaistCm),
      roadworkKm := OrElse(data.roadworkKm, 0.0),
      roadworkTimeMin := OrElse(data.roadworkTimeMin, 0.0),
      pushupsCount := OrElse(data.pushupsCount, 0.0),
      squatsCount := OrElse(data.squatsCount, 0.0),
      plankSec := OrElse(data.plankSec, 0.0),
      boxingRounds := OrElse(data.boxingRounds, 0.0),
      boxingMinutes := OrElse(data.boxingMinutes, 0.0),
      dietCompliancePct := OrElse(data.dietCompliancePct, 0.0),
      waterLiters := OrElse(data.waterLiters, 0.0),
      sleepHours := OrElse(data.sleepHours, 0.0),
      energyLevel := OrElse(data.energyLevel, 3.0),
      disciplineScore := OrElse(data.disciplineScore, 5.0),
      missedDayFlag := false,
      isImputed := false,
      carryForwardFromDate := None,
      notes := OrElse(data.notes, "")
    )
  }

  /** The fixed content of an imputed placeholder: everything except the carried body measurements and their source date. */
  predicate IsMissedDayRecord(e: DailyEntry, id: string, now: string)
  {
    && e.id == id && e.versionNumber == 1 && e.createdAt == now && e.editedAt == None
    && e.createdBy == System && e.missedDayFlag && e.isImputed
    && e.roadworkKm == 0.0 && e.roadworkTimeMin == 0.0 && e.pushupsCount == 0.0
    && e.squatsCount == 0.0 && e.plankSec == 0.0 && e.boxingRounds == 0.0 && e.boxingMinutes == 0.0
    && e.dietCompliancePct == 0.0 && e.waterLiters == 0.0 && e.sleepHours == 0.0
    && e.energyLevel == 1.0 && e.disciplineScore == 1.0
    && e.notes == MissedDayNotes
  }

  /**
   * The placeholder for a missing `date`, given the effective map as it
   * stands: weight and waist come from the nearest earlier key, or from the
   * baseline when there is none.
   */
  function MissedDay(id: string, now: string, date: Date, effective: map<Date, DailyEntry>): (e: DailyEntry)
    ensures e.date == date && IsMissedDayRecord(e, id, now)
    ensures e.carryForwardFromDate.Some? <==> exists k :: k in effective && k < date
    ensures e.carryForwardFromDate.Some? ==>
      var k := e.carryForwardFromDate.value;
      && k in effective && k < date
      && (forall k' :: k' in effective && k' < date ==> k' <= k)
      && e.weightKg == effective[k].weightKg && e.waistCm == effective[k].waistCm
    ensures e.carryForwardFromDate.None? ==>
      e.weightKg == Plan.InitialWeightKg && e.waistCm == Plan.InitialWaistCm
  {
    var from := LatestBefore(effective, date);
    var weight := if from.Some? then effective[from.value].weightKg else Plan.InitialWeightKg;
    var waist := if from.Some? then effective[from.value].waistCm else Plan.InitialWaistCm;
    DailyEntry(
      id := id,
      date := date,
      versionNumber := 1,
      createdAt := now,
      editedAt := None,
      createdBy := System,
      weightKg := weight,
      waistCm := waist,
      roadworkKm := 0.0,
      roadworkTimeMin := 0.0,
      pushupsCount := 0.0,
      squatsCount := 0.0,
      plankSec := 0.0,
      boxingRounds := 0.0,
      boxingMinutes := 0.0,
      dietCompliancePct := 0.0,
      waterLiters := 0.0,
      sleepHours := 0.0,
      energyLevel := 1.0,
      disciplineScore := 1.0,
      missedDayFlag := true,
      isImputed := true,
      carryForwardFromDate := from,
      notes := MissedDayNotes
    )
  }

  /** `e` carries weight and waist forward from the record of the day before it in `m`. */
  predicate CarriedForward(e: DailyEntry, m: map<Date, DailyEntry>)
  {
    && e.carryForwardFromDate == Some(e.date - 1)
    && e.date - 1 in m
    && e.weightKg == m[e.date - 1].weightKg
    && e.waistCm == m[e.date - 1].waistCm
  }

  function Lookup(m: map<Date, DailyEntry>, d: Date): (r: Option<DailyEntry>)
    ensures r.Some? <==> d in m
    ensures r.Some? ==> r.value == m[d]
  {
    if d in m then Some(m[d]) else None
  }

  /**
   * The daily form's save path: the current effective record of the date is
   * passed as the previous entry, and the save is an edit exactly when one
   * exists. The new record becomes the date's effective record, no other
   * date changes, and a gapless log stays gapless.
   */
  lemma SavedEntrySupersedes(log: seq<DailyEntry>, id: string, now: string, date: Date, data: Draft)
    ensures
      var previous := Lookup(Effective(log), date);
      var e := CreateNewEntry(id, now, date, data, previous, previous.Some?);
      && Effective(log + [e]).Keys == Effective(log).Keys + {date}
      && Effective(log + [e])[date] == e
      && (forall d :: d in Effective(log) && d != date ==> Effective(log + [e])[d] == Effective(log)[d])
      && (VersionsGapless(log) ==> VersionsGapless(log + [e]))
  {
    var previous := Lookup(Effective(log), date);
    var e := CreateNewEntry(id, now, date, data, previous, previous.Some?);
    assert (log + [e])[..|log|] == log;
    if VersionsGapless(log) {
      GaplessEffectiveIsNewest(log, date);
      AppendKeepsGapless(log, e);
    }
  }

  /**
   * Re-logging a date: after A, appending B for the same date with
   * B's version one above A's makes B effective, and the log keeps both.
   */
  lemma EditRoundTrip(log: seq<DailyEntry>, a: DailyEntry, b: DailyEntry)
    requires a.date == b.date && b.versionNumber == a.versionNumber + 1
    requires VersionsGapless(log) && a.versionNumber == CountOn(log, a.date) + 1
    ensures Effective(log + [a] + [b])[b.date] == b
    ensures Effective(log + [a])[a.date] == a
    ensures VersionsGapless(log + [a] + [b])
  {
    AppendKeepsGapless(log, a);
    assert (log + [a])[..|log|] == log;
    assert (log + [a] + [b])[..|log| + 1] == log + [a];
    assert CountOn(log + [a], a.date) == CountOn(log, a.date) + 1;
    AppendKeepsGapless(log + [a], b);
    GaplessEffectiveIsNewest(log + [a], a.date);
  }

  /** An imputed placeholder appended for a date without a record keeps a gapless log gapless. */
  lemma MissedDayKeepsGapless(log: seq<DailyEntry>, e: DailyEntry)
    requires VersionsGapless(log)
    requires e.date !in Effective(log) && e.versionNumber == 1
    ensures VersionsGapless(log + [e])
  {
    GaplessEffectiveIsNewest(log, e.date);
    AppendKeepsGapless(log, e);
  }

  /**
   * The plan view offers its quick log for a date that has no effective
   * record ("mark done") or whose effective record is a missed or imputed
   * placeholder ("redeem").
   */
  predicate QuickLogOffered(m: map<Date, DailyEntry>, date: Date)
  {
    date !in m || m[date].missedDayFlag || m[date].isImputed
  }

  /**
   * Every flagged (missed or imputed) record has version 1. The entry
   * constructor never sets a flag and placeholders always have version 1,
   * so every log the application writes has this property.
   */
  ghost predicate FlaggedAreFirst(log: seq<DailyEntry>)
  {
    forall i :: 0 <= i < |log| && (log[i].missedDayFlag || log[i].isImputed) ==> log[i].versionNumber == 1
  }

  /**
   * The plan view's quick log: a version-1 user record built with no previous
   * entry. On every date where the view offers it, it becomes the date's
   * effective record (it wins a version tie against a placeholder by being
   * later), no other date changes, and flagged records stay at version 1.
   */
  lemma QuickLogTakesEffect(log: seq<DailyEntry>, id: string, now: string, date: Date, data: Draft)
    requires FlaggedAreFirst(log) && QuickLogOffered(Effective(log), date)
    ensures var e := CreateNewEntry(id, now, date, data, None, false);
      && Effective(log + [e]) == Effective(log)[date := e]
      && FlaggedAreFirst(log + [e])
  {
    var e := CreateNewEntry(id, now, date, data, None, false);
    assert (log + [e])[..|log|] == log;
    if date in Effective(log) {
      EffectiveIsLatest(log, date);
      var w :| IsLatest(log, date, w) && Effective(log)[date] == log[w];
      assert log[w].versionNumber == 1;
    }
  }

  /**
   * The redeem path as written: the quick log on a date that already has a
   * record (a placeholder, where the view offers "redeem") is numbered 1
   * again, so a gapless log stops being gapless. The record still becomes
   * effective (`QuickLogTakesEffect`) only through the later-wins tie.
   */
  lemma QuickLogBreaksGapless(log: seq<DailyEntry>, id: string, now: string, date: Date, data: Draft)
    requires VersionsGapless(log) && date in Effective(log)
    ensures var e := CreateNewEntry(id, now, date, data, None, false);
      && e.versionNumber == 1
      && !VersionsGapless(log + [e])
  {
    var e := CreateNewEntry(id, now, date, data, None, false);
    GaplessEffectiveIsNewest(log, date);
    assert (log + [e])[..|log|] == log;
    assert (log + [e])[|log|] == e;
  }

  /**
   * The quick log on a date whose effective record was already edited
   * (version 2 or more): the version-1 record is appended but never becomes
   * effective. In a log whose flagged records have version 1, such a
   * record is not flagged, so the plan view never offers the quick log there.
   */
  lemma QuickLogIsHidden(log: seq<DailyEntry>, id: string, now: string, date: Date, data: Draft)
    requires date in Effective(log) && Effective(log)[date].versionNumber >= 2
    ensures var e := CreateNewEntry(id, now, date, data, None, false);
      && e.versionNumber == 1
      && Effective(log + [e]) == Effective(log)
      && Effective(log + [e])[date] != e
    ensures FlaggedAreFirst(log) ==> !QuickLogOffered(Effective(log), date)
  {
    var e := CreateNewEntry(id, now, date, data, None, false);
    assert (log + [e])[..|log|] == log;
    EffectiveIsLatest(log, date);
    var w :| IsLatest(log, date, w) && Effective(log)[date] == log[w];
  }
}
