# Diet & Lifestyle Tracker frontend: summary aggregation and display helpers

The application is a single-page client that logs meals and exercise
sessions against a remote REST backend. Its only client-side logic beyond
rendering and HTTP calls is modelled here:

- the dashboard **summary aggregator** in `src/App.jsx`: total calories
  (a missing value counts as 0), the meal count, total exercise minutes
  (likewise), the session count, and the latest meal and latest session,
  each picked by a `reduce` that replaces its current pick only when a later
  record has a strictly later date;
- the **activity fallback** applied when an exercise is loaded into the edit
  form: the stored activity is kept only if it is one of Walking, Running,
  Swimming and Yoga, and becomes Walking otherwise;
- the **meal-type capitalisation** (first character kept, the rest
  lower-cased), used by the meals table and by the diet list;
- the diet list's **calorie total** (the same sum without the
  missing-to-0 coercion) and its **meal-type badge colour**.

Modules:

- `Wrappers` (`wrappers.dfy`): `Option`, for missing fields and the `null`
  start of the "latest" fold.
- `Folds` (`folds.dfy`): the two `reduce` shapes the dashboard uses, as left
  folds over a sequence with the value or date of an element passed as a
  function: `Sum`, and `Latest` built from the one-step `Later`. Their
  lemmas carry the proofs: a sum splits over concatenation and does not
  depend on order; the latest record is the one at the first position of the
  greatest key, in both directions.
- `Text` (`text.dfy`): `toLowerCase` on ASCII letters.
- `DietList` (`diet_list.dfy`): the list view's total, formatter and badge.
- `App` (`app.dfy`): the meal and exercise records, the `Summary` of the six
  dashboard figures, the activity fallback, the edit-form reset and the
  meals-table label.

Dates are day numbers (`Day = int`), standing in for the timestamps that
`new Date(date)` produces; a later date has a larger number. A field that is
missing is `None`, and a present value, 0 included, is `Some(n)`;
`Number(x || 0)` is `OrZero`, which sends both `None` and `Some(0)` to 0.

Ties on the latest date go to the first record with that date: the fold at
`src/App.jsx:332-333` replaces its pick only on a strictly later date
(`App.LatestMealFirstAmongTies`, `App.LatestExerciseFirstAmongTies`).

## Model

| member | source | states |
|---|---|---|
| App.Summarize | src/App.jsx:327-333 | the six figures: the meal and session counts are the list lengths; latest meal and latest session are absent exactly for an empty list, are elements of their list, are dated no earlier than any element, and are the record at the first position holding the greatest date |
| App.OrZero | src/App.jsx:327 | the coercion of a calorie or minutes field: a missing value gives 0, a present value gives itself |
| App.TotalCalories | src/App.jsx:327 | no meals total 0 and one meal totals its coerced calories; characterised further by App.TotalCaloriesAppend and App.TotalCaloriesPermutation |
| App.TotalExerciseMinutes | src/App.jsx:329 | no sessions total 0 and one session totals its coerced minutes; characterised further by App.TotalExerciseMinutesAppend and App.TotalExerciseMinutesNonNegative |
| App.LatestMeal | src/App.jsx:332 | absent exactly when there are no meals, otherwise one of the meals; its date and tie rule are stated by App.LatestMealIsLatest and App.LatestMealFirstAmongTies |
| App.LatestExercise | src/App.jsx:333 | absent exactly when there are no sessions, otherwise one of the sessions; its date and tie rule are stated by App.LatestExerciseIsLatest and App.LatestExerciseFirstAmongTies |
| App.SummarizeEmpty | src/App.jsx:327-333 | two empty lists give totals and counts of 0 and no latest records |
| App.TotalCaloriesAppend | src/App.jsx:327 | appending a meal adds its calories, a missing value adding 0 |
| App.TotalCaloriesPermutation | src/App.jsx:327 | any reordering of the meals gives the same calorie total |
| App.TotalCaloriesAgreesWithList | src/App.jsx:327 | when no meal lacks its calories, the dashboard total equals the diet list's uncoerced total over the same values |
| App.TotalExerciseMinutesAppend | src/App.jsx:329 | appending a session adds its minutes, a missing value adding 0 |
| App.TotalExerciseMinutesNonNegative | src/App.jsx:329 | the minute total is at least 0 whenever every present minutes value is |
| App.LatestMealIsLatest | src/App.jsx:332 | no latest meal exactly when there are no meals; otherwise a meal of the list with a date at least every meal's date |
| App.LatestExerciseIsLatest | src/App.jsx:333 | the same for exercise sessions |
| App.LatestMealFirstAmongTies | src/App.jsx:332 | the meal at the first position holding the greatest date is the one selected |
| App.LatestExerciseFirstAmongTies | src/App.jsx:333 | the session at the first position holding the greatest date is the one selected |
| App.TwoMealsExample | src/App.jsx:327-332 | meals of 400 and 600 kcal dated 2024-01-01 and 2024-01-05 give 1000 kcal, 2 meals and a latest meal dated 2024-01-05 |
| App.ResetActivity | src/App.jsx:101 | the activity is always one of the four options of `ACTIVITY_OPTIONS` (the constant App.ActivityOptions, declared at src/App.jsx line 7); it is the stored name when that is an option and Walking otherwise |
| App.ExerciseFormReset | src/App.jsx:97-107 | editing copies date and minutes, keeps the activity exactly when it is an option and puts Walking in its place otherwise; with nothing being edited, the form holds today, Walking and empty minutes |
| App.ExerciseFormResetStable | src/App.jsx:97-107 | saving the reset values unchanged and editing again yields the same form |
| App.MealTypeLabel | src/App.jsx:181 | the label has the meal type's length, keeps its first character and lower-cases every later one, and the four meal types show as Breakfast, Lunch, Dinner and Snack |
| App.MealTypeLabelStable | src/App.jsx:181 | a meal whose type is already in display form is shown unchanged |
| Folds.Sum | src/App.jsx:327 | the `reduce` sum from 0: the empty list sums to 0 and a single element to its value; characterised further by Folds.SumConcat and Folds.SumPermutation |
| Folds.SumConcat | src/App.jsx:327 | the sum of a concatenation is the sum of the sums of its parts |
| Folds.SumNonNegative | src/App.jsx:329 | a sum of non-negative terms is non-negative |
| Folds.Later | src/App.jsx:332 | one step of the latest fold: the pick is the new record or the current one, is never empty, never moves to an earlier key, is replaced by the new record when there is none yet or the new key is strictly greater, and stays put otherwise |
| Folds.Latest | src/App.jsx:332-333 | the `reduce` from `null`: empty exactly on the empty list, otherwise an element of it; characterised further by Folds.LatestIsFirstLatest and Folds.LatestAtFirstLatest |
| Folds.SumPermutation | src/App.jsx:327 | a reduce-sum is equal on any two lists with the same elements |
| Folds.LatestIsFirstLatest | src/App.jsx:332-333 | the latest fold is empty exactly on the empty list, and otherwise selects the element at the first position of the maximum key |
| Folds.LatestAtFirstLatest | src/App.jsx:332-333 | conversely, for whichever index is the first position of the maximum key, the fold selects that element |
| DietList.TotalCalories | src/components/DietList.jsx:53 | the total of no records is 0 |
| DietList.TotalCaloriesAppend | src/components/DietList.jsx:53 | appending a record with calories c raises the total by exactly c |
| DietList.TotalCaloriesConcat | src/components/DietList.jsx:53 | the total of two lists one after the other is the sum of their totals |
| DietList.FormatMealType | src/components/DietList.jsx:38-40 | same length, same first character, every later character lower-cased |
| DietList.FormatMealTypeIdempotent | src/components/DietList.jsx:38-40 | formatting twice equals formatting once |
| DietList.FormatMealTypeNames | src/components/DietList.jsx:38-40 | BREAKFAST, LUNCH, DINNER and SNACK format as Breakfast, Lunch, Dinner and Snack |
| DietList.ColourIf | src/components/DietList.jsx:124-127 | one template piece: the colour when the meal type equals the key, the empty string otherwise |
| DietList.BadgeClass | src/components/DietList.jsx:123-128 | each of the four meal types gets its own colour classes and every other string gets none |
| DietList.BadgeClassExactlyOne | src/components/DietList.jsx:123-128 | a colour is produced exactly for the four meal types, and two meal types never share one |
| Text.LowerChar | src/components/DietList.jsx:39 | the result is never one of A-Z; A-Z moves to a-z and every other character is kept |
| Text.ToLowerCase | src/components/DietList.jsx:39 | same length, each character lower-cased in place |
| Text.ToLowerCaseIdempotent | src/components/DietList.jsx:39 | lower-casing twice equals lower-casing once |

## Left out

- The HTTP layer (`src/services/dietService.js`): thin wrappers over a remote API with no local logic.
- Loading, the joint `Promise.all` fetch, refetching after a change, `window.confirm` and `alert`: event-loop and I/O orchestration.
- Form validation rules and the `Number`/`parseInt` conversion of form strings: the rules are configuration for a form library whose code is not part of this model, and `Number`/`parseInt` are JavaScript runtime conversions.
- Date parsing and formatting (`new Date`, `toISOString`, `toLocaleDateString`, `formatShortDate`, `formatDate`): they depend on locale and time zone; dates are day numbers, and `todayISO()` becomes the `today` parameter of `App.ExerciseFormReset`.
- A date that does not parse (`new Date` giving NaN, whose comparisons are all false) is not modelled: every date is a day number.
- App.TotalCalories and App.TotalExerciseMinutes: a field holding a non-numeric string (which `Number` turns into NaN, making the whole total NaN) is not modelled; a field is either a number or missing.
- DietList.TotalCalories: an absent (`undefined`) `calories` makes the JavaScript total NaN, a `null` one adds 0, and a string turns `+` into concatenation; none of these is modelled, and every record carries an integer.
- Numbers are unbounded integers; JavaScript's double-precision arithmetic and its rounding of very large totals are not modelled.
- Text.ToLowerCase, Text.LowerChar, DietList.FormatMealType and App.MealTypeLabel: only A-Z are lower-cased (a character such as 'É' is kept where JavaScript gives 'é'); the Unicode case mappings of `toLowerCase`, some of which change the length of the string, are not modelled.
- DietList.BadgeClass: only the colour part of the badge's class attribute is modelled, not its fixed classes or the whitespace of the template.
- Rendering, styling and React hooks; the render smoke test `src/App.test.jsx`.
