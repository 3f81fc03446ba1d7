/**
 * The 100-day program: which phase a day number falls in, and the plan
 * (rest day, phase, numeric targets) for a day.
 */
module Plan {

  /** Baseline body stats used when no earlier weight or waist is known. */
  const InitialWeightKg: real := 82.0
  const InitialWaistCm: real := 91.44

  const StrictDietPlan: string := "Breakfast: 2 Eggs/Roti+Sabzi | Lunch: 2 Rotis+Dal+Sabzi | Snack: Fruit/Peanuts | Dinner: 2 Rotis+Dal+Sabzi (NO RICE) | 3-4L Water"
  const RestWorkout: string := "Rest light if tired (Active Recovery)"
  const Phase1Workout: string := "Walk/Jog 20–30 min | Push-ups 3×10–15, Squats 3×20–25, Plank 1–1.5 min | Shadow Boxing 3×3 min"
  const Phase2Workout: string := "Run 2–3 km | Push-ups 50–100 total, Squats 3×30–40, Plank 2 min | Shadow Boxing 4×3 min"
  const Phase3Workout: string := "Run 3–5 km (Intervals) | Push-ups 100–120 total, Squats 3×40–50, Plank 2–3 min | Shadow Boxing 4–5×3 min + Footwork"
  const Phase4Workout: string := "Run 4–6 km (Sprints) | Push-ups 120–150 total, Squats 3×50–60, Plank 3 min | Shadow Boxing 5×3 min"

  datatype Targets = Targets(km: int, pushups: int, squats: int, rounds: int)

  datatype DayPlan = DayPlan(
    dayNum: int,
    workout: string,
    nutrition: string,
    isRest: bool,
    phase: int,
    targets: Targets
  )

  /** The key of the phase a day belongs to (the phase table itself is static text). */
  function PhaseForDay(dayNum: int): (phase: int)
    ensures 1 <= phase <= 4
    ensures phase == 1 <==> dayNum <= 30
    ensures phase == 2 <==> 30 < dayNum <= 60
    ensures phase == 3 <==> 60 < dayNum <= 80
    ensures phase == 4 <==> 80 < dayNum
  {
    if dayNum <= 30 then 1
    else if dayNum <= 60 then 2
    else if dayNum <= 80 then 3
    else 4
  }

  /** Later days never fall in an earlier phase. */
  lemma PhaseMonotonic(d1: int, d2: int)
    requires d1 <= d2
    ensures PhaseForDay(d1) <= PhaseForDay(d2)
  {
  }

  /** The plan for a day: every seventh day rests, otherwise the phase sets the targets. */
  function PlanDetails(dayNum: int): (r: DayPlan)
    ensures r.dayNum == dayNum && r.nutrition == StrictDietPlan
    ensures r.isRest <==> dayNum % 7 == 0
    ensures 1 <= r.phase <= 4 && r.phase == PhaseForDay(dayNum)
    ensures r.isRest ==> r.targets == Targets(0, 0, 0, 0) && r.workout == RestWorkout
    ensures !r.isRest && r.phase == 1 ==> r.workout == Phase1Workout && r.targets == Targets(2, 45, 75, 3)
    ensures !r.isRest && r.phase == 2 ==> r.workout == Phase2Workout && r.targets == Targets(3, 75, 105, 4)
    ensures !r.isRest && r.phase == 3 ==> r.workout == Phase3Workout && r.targets == Targets(4, 110, 135, 5)
    ensures !r.isRest && r.phase == 4 ==> r.workout == Phase4Workout && r.targets == Targets(5, 135, 165, 5)
  {
    var isRest := dayNum % 7 == 0;
    var phase1 := 1;
    var phase2 := if dayNum > 30 then 2 else phase1;
    var phase3 := if dayNum > 60 then 3 else phase2;
    var phaseNum := if dayNum > 80 then 4 else phase3;
    var (workout, targets) :=
      if isRest then (RestWorkout, Targets(0, 0, 0, 0))
      else match phaseNum
        case 1 => (Phase1Workout, Targets(2, 45, 75, 3))
        case 2 => (Phase2Workout, Targets(3, 75, 105, 4))
        case 3 => (Phase3Workout, Targets(4, 110, 135, 5))
        case 4 => (Phase4Workout, Targets(5, 135, 165, 5))
        case _ => ("", Targets(0, 0, 0, 0));
    DayPlan(dayNum, workout, StrictDietPlan, isRest, phaseNum, targets)
  }

  /** Among training days, the distance, push-up, squat and round targets never decrease. */
  lemma TrainingTargetsNonDecreasing(d1: int, d2: int)
    requires d1 <= d2 && d1 % 7 != 0 && d2 % 7 != 0
    ensures var t1, t2 := PlanDetails(d1).targets, PlanDetails(d2).targets;
      t1.km <= t2.km && t1.pushups <= t2.pushups && t1.squats <= t2.squats && t1.rounds <= t2.rounds
  {
    PhaseMonotonic(d1, d2);
  }
}
