/** The dashboard: the summary statistics it derives from the fetched meal
    and exercise lists, the activity fallback used when an exercise is
    loaded into the edit form, and the meal-type label of the meals table. */
module App {
  import opened Wrappers
  import Folds
  import DietList
  import Text

  /** A calendar date as a day number, standing in for the timestamp that
      `new Date(date)` yields; later dates have larger numbers. */
  type Day = int

  /** A meal as fetched from the backend. `calories` is `None` when the
      field is missing; a present value, 0 included, is `Some(n)`. */
  datatype Meal = Meal(id: int, date: Day, mealType: string, foodName: string, calories: Option<int>)

  /** An exercise session as fetched from the backend. */
  datatype Exercise = Exercise(id: int, date: Day, activityName: string, minutes: Option<int>)

  /** The figures shown on the "Snapshot" cards. */
  datatype Summary = Summary(
    totalCalories: int,
    totalMeals: nat,
    totalExerciseMinutes: int,
    totalExercises: nat,
    latestMeal: Option<Meal>,
    latestExercise: Option<Exercise>)

  /** `Number(value || 0)`: a missing value counts as 0. */
  function OrZero(v: Option<int>): (n: int)
    ensures v.None? ==> n == 0
    ensures v.Some? ==> n == v.value
  {
    match v
    case Some(n) => n
    case None => 0
  }

  function MealCalories(m: Meal): int
  {
    OrZero(m.calories)
  }

  function ExerciseMinutes(e: Exercise): int
  {
    OrZero(e.minutes)
  }

  function MealDate(m: Meal): Day
  {
    m.date
  }

  function ExerciseDate(e: Exercise): Day
  {
    e.date
  }

  function TotalCalories(meals: seq<Meal>): (total: int)
    ensures meals == [] ==> total == 0
    ensures |meals| == 1 ==> total == OrZero(meals[0].calories)
  {
    Folds.Sum(meals, MealCalories)
  }

  function TotalExerciseMinutes(exercises: seq<Exercise>): (total: int)
    ensures exercises == [] ==> total == 0
    ensures |exercises| == 1 ==> total == OrZero(exercises[0].minutes)
  {
    Folds.Sum(exercises, ExerciseMinutes)
  }

  function LatestMeal(meals: seq<Meal>): (latest: Option<Meal>)
    ensures latest.None? <==> meals == []
    ensures latest.Some? ==> latest.value in meals
  {
    Folds.Latest(meals, MealDate)
  }

  function LatestExercise(exercises: seq<Exercise>): (latest: Option<Exercise>)
    ensures latest.None? <==> exercises == []
    ensures latest.Some? ==> latest.value in exercises
  {
    Folds.Latest(exercises, ExerciseDate)
  }

  /** The six dashboard figures, recomputed from the two lists. */
  function Summarize(meals: seq<Meal>, exercises: seq<Exercise>): (s: Summary)
    ensures s.totalMeals == |meals| && s.totalExercises == |exercises|
    ensures s.totalCalories == TotalCalories(meals)
    ensures s.totalExerciseMinutes == TotalExerciseMinutes(exercises)
    ensures s.latestMeal.None? <==> meals == []
    ensures s.latestExercise.None? <==> exercises == []
    ensures s.latestMeal.Some? ==> s.latestMeal.value in meals
    ensures s.latestExercise.Some? ==> s.latestExercise.value in exercises
    ensures s.latestMeal.Some? ==> forall m :: m in meals ==> m.date <= s.latestMeal.value.date
    ensures s.latestExercise.Some? ==> forall e :: e in exercises ==> e.date <= s.latestExercise.value.date
    ensures meals != [] ==> exists i :: Folds.IsFirstLatest(meals, MealDate, i) && s.latestMeal == Some(meals[i])
    ensures exercises != [] ==> exists i :: Folds.IsFirstLatest(exercises, ExerciseDate, i) && s.latestExercise == Some(exercises[i])
  {
    LatestMealIsLatest(meals);
    LatestExerciseIsLatest(exercises);
    Folds.LatestIsFirstLatest(meals, MealDate);
    Folds.LatestIsFirstLatest(exercises, ExerciseDate);
    Summary(
      TotalCalories(meals), |meals|,
      TotalExerciseMinutes(exercises), |exercises|,
      LatestMeal(meals), LatestExercise(exercises))
  }

  /** With no data every figure is zero and there is no latest record. */
  lemma SummarizeEmpty()
    ensures Summarize([], []) == Summary(0, 0, 0, 0, None, None)
  {
  }

  /** Appending a meal adds its calories, a missing value adding nothing. */
  lemma TotalCaloriesAppend(meals: seq<Meal>, m: Meal)
    ensures TotalCalories(meals + [m]) == TotalCalories(meals) + (if m.calories.Some? then m.calories.value else 0)
  {
    Folds.SumConcat(meals, [m], MealCalories);
  }

  /** The calorie total does not depend on the order of the meals. */
  lemma TotalCaloriesPermutation(meals: seq<Meal>, reordered: seq<Meal>)
    requires multiset(meals) == multiset(reordered)
    ensures TotalCalories(meals) == TotalCalories(reordered)
  {
    Folds.SumPermutation(meals, reordered, MealCalories);
  }

  /** Appending a session adds its minutes, a missing value adding nothing. */
  lemma TotalExerciseMinutesAppend(exercises: seq<Exercise>, e: Exercise)
    ensures TotalExerciseMinutes(exercises + [e]) == TotalExerciseMinutes(exercises) + (if e.minutes.Some? then e.minutes.value else 0)
  {
    Folds.SumConcat(exercises, [e], ExerciseMinutes);
  }

  /** When every meal carries its calories, the dashboard total equals the
      diet list's total over the same records, which has no coercion. */
  lemma {:induction false} TotalCaloriesAgreesWithList(meals: seq<Meal>, records: seq<DietList.Record>)
    requires |meals| == |records|
    requires forall i :: 0 <= i < |meals| ==> meals[i].calories == Some(records[i].calories)
    ensures TotalCalories(meals) == DietList.TotalCalories(records)
  {
    if |meals| > 0 {
      var n := |meals| - 1;
      TotalCaloriesAgreesWithList(meals[..n], records[..n]);
      TotalCaloriesAppend(meals[..n], meals[n]);
      DietList.TotalCaloriesAppend(records[..n], records[n]);
      assert meals[..n] + [meals[n]] == meals;
      assert records[..n] + [records[n]] == records;
    }
  }

  /** The minute total is never negative when no present value is. */
  lemma TotalExerciseMinutesNonNegative(exercises: seq<Exercise>)
    requires forall i :: 0 <= i < |exercises| ==> exercises[i].minutes.Some? ==> exercises[i].minutes.value >= 0
    ensures TotalExerciseMinutes(exercises) >= 0
  {
    assert forall i :: 0 <= i < |exercises| ==> ExerciseMinutes(exercises[i]) >= 0;
    Folds.SumNonNegative(exercises, ExerciseMinutes);
  }

  /** The latest meal is absent exactly for an empty list; otherwise it is a
      meal of the list dated no earlier than any other. */
  lemma LatestMealIsLatest(meals: seq<Meal>)
    ensures LatestMeal(meals).None? <==> meals == []
    ensures LatestMeal(meals).Some? ==> LatestMeal(meals).value in meals
    ensures LatestMeal(meals).Some? ==> forall m :: m in meals ==> m.date <= LatestMeal(meals).value.date
  {
    Folds.LatestIsFirstLatest(meals, MealDate);
    Folds.LatestIsMaximal(meals, MealDate);
  }

  /** The same for the latest exercise session. */
  lemma LatestExerciseIsLatest(exercises: seq<Exercise>)
    ensures LatestExercise(exercises).None? <==> exercises == []
    ensures LatestExercise(exercises).Some? ==> LatestExercise(exercises).value in exercises
    ensures LatestExercise(exercises).Some? ==> forall e :: e in exercises ==> e.date <= LatestExercise(exercises).value.date
  {
    Folds.LatestIsFirstLatest(exercises, ExerciseDate);
    Folds.LatestIsMaximal(exercises, ExerciseDate);
  }

  /** Ties keep the earlier record: the latest meal is the one at the first
      position holding the greatest date, and only that one. */
  lemma LatestMealFirstAmongTies(meals: seq<Meal>, i: int)
    requires 0 <= i < |meals|
    requires forall j :: 0 <= j < |meals| ==> meals[j].date <= meals[i].date
    requires forall j :: 0 <= j < i ==> meals[j].date < meals[i].date
    ensures LatestMeal(meals) == Some(meals[i])
  {
    assert Folds.IsFirstLatest(meals, MealDate, i);
    Folds.LatestAtFirstLatest(meals, MealDate, i);
  }

  /** The same tie rule for exercise sessions. */
  lemma LatestExerciseFirstAmongTies(exercises: seq<Exercise>, i: int)
    requires 0 <= i < |exercises|
    requires forall j :: 0 <= j < |exercises| ==> exercises[j].date <= exercises[i].date
    requires forall j :: 0 <= j < i ==> exercises[j].date < exercises[i].date
    ensures LatestExercise(exercises) == Some(exercises[i])
  {
    assert Folds.IsFirstLatest(exercises, ExerciseDate, i);
    Folds.LatestAtFirstLatest(exercises, ExerciseDate, i);
  }

  /** Two meals of 400 and 600 kcal on 2024-01-01 (day 19723) and
      2024-01-05 (day 19727). */
  lemma TwoMealsExample()
    ensures var meals := [Meal(1, 19723, "LUNCH", "Salad", Some(400)), Meal(2, 19727, "DINNER", "Pasta", Some(600))];
            var s := Summarize(meals, []);
            s.totalCalories == 1000 && s.totalMeals == 2 && s.latestMeal.Some? && s.latestMeal.value.date == 19727
  {
    var meals := [Meal(1, 19723, "LUNCH", "Salad", Some(400)), Meal(2, 19727, "DINNER", "Pasta", Some(600))];
    LatestMealFirstAmongTies(meals, 1);
    TotalCaloriesAppend([], meals[0]);
    TotalCaloriesAppend([meals[0]], meals[1]);
    assert [] + [meals[0]] == [meals[0]] && [meals[0]] + [meals[1]] == meals;
  }

  /** The activities the exercise form offers; the first is its default. */
  const ActivityOptions: seq<string> := ["Walking", "Running", "Swimming", "Yoga"]

  /** The activity put into the form when an exercise is edited: the stored
      name if the form offers it, otherwise the first option. */
  function ResetActivity(name: string): (r: string)
    ensures r in ActivityOptions
    ensures name in ActivityOptions ==> r == name
    ensures name !in ActivityOptions ==> r == "Walking"
  {
    if name in ActivityOptions then name else ActivityOptions[0]
  }

  /** The values the exercise form holds after it is reset. */
  datatype ExerciseFormValues = ExerciseFormValues(date: Day, activityName: string, minutes: Option<int>)

  /** Resetting the form for an exercise being edited copies its date and
      minutes and applies the activity fallback; with nothing being edited
      the form shows today, the first activity and empty minutes. */
  function ExerciseFormReset(editing: Option<Exercise>, today: Day): (v: ExerciseFormValues)
    ensures v.activityName in ActivityOptions
    ensures editing.None? ==> v == ExerciseFormValues(today, "Walking", None)
    ensures editing.Some? ==> v.date == editing.value.date && v.minutes == editing.value.minutes
    ensures editing.Some? ==> (v.activityName == editing.value.activityName <==> editing.value.activityName in ActivityOptions)
    ensures editing.Some? && editing.value.activityName !in ActivityOptions ==> v.activityName == "Walking"
  {
    match editing
    case Some(e) => ExerciseFormValues(e.date, ResetActivity(e.activityName), e.minutes)
    case None => ExerciseFormValues(today, ActivityOptions[0], None)
  }

  /** Editing, saving without change and editing again shows the same form. */
  lemma ExerciseFormResetStable(e: Exercise, today: Day)
    ensures var v := ExerciseFormReset(Some(e), today);
            ExerciseFormReset(Some(Exercise(e.id, v.date, v.activityName, v.minutes)), today) == v
  {
  }

  /** The meal-type cell of the meals table: the same capitalisation as the
      diet list's formatter. */
  function MealTypeLabel(m: Meal): (shown: string)
    ensures |shown| == |m.mealType|
    ensures |m.mealType| > 0 ==> shown[0] == m.mealType[0]
    ensures forall i :: 1 <= i < |shown| ==> shown[i] == Text.LowerChar(m.mealType[i])
    ensures m.mealType == "BREAKFAST" ==> shown == "Breakfast"
    ensures m.mealType == "LUNCH" ==> shown == "Lunch"
    ensures m.mealType == "DINNER" ==> shown == "Dinner"
    ensures m.mealType == "SNACK" ==> shown == "Snack"
  {
    DietList.FormatMealTypeNames();
    DietList.FormatMealType(m.mealType)
  }

  /** A meal whose type is already shown in its display form is shown unchanged. */
  lemma MealTypeLabelStable(m: Meal)
    ensures MealTypeLabel(m.(mealType := MealTypeLabel(m))) == MealTypeLabel(m)
  {
    DietList.FormatMealTypeIdempotent(m.mealType);
  }
}
