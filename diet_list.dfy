/** The derived values of the diet-record list view: the calorie total in
    its header, the display form of a meal type, and the colour of the
    meal-type badge. */
module DietList {
  import Folds
  import Text

  /** A diet record as the list receives it from the backend. */
  datatype Record = Record(id: int, foodName: string, calories: int, mealType: string, date: int)

  function CaloriesOf(r: Record): int
  {
    r.calories
  }

  /** `records.reduce((sum, record) => sum + record.calories, 0)`: unlike the
      dashboard, no missing value is turned into 0. */
  function TotalCalories(records: seq<Record>): (total: int)
    ensures records == [] ==> total == 0
  {
    Folds.Sum(records, CaloriesOf)
  }

  /** Appending a record raises the total by exactly its calories. */
  lemma TotalCaloriesAppend(records: seq<Record>, r: Record)
    ensures TotalCalories(records + [r]) == TotalCalories(records) + r.calories
  {
    Folds.SumConcat(records, [r], CaloriesOf);
  }

  /** The total of two lists shown one after the other is the sum of their totals. */
  lemma TotalCaloriesConcat(a: seq<Record>, b: seq<Record>)
    ensures TotalCalories(a + b) == TotalCalories(a) + TotalCalories(b)
  {
    Folds.SumConcat(a, b, CaloriesOf);
  }

  /** The first character is kept and the rest is lower-cased; the empty
      string stays empty (`charAt(0)` and `slice(1)` of "" are both ""). */
  function FormatMealType(mealType: string): (r: string)
    ensures |r| == |mealType|
    ensures |mealType| > 0 ==> r[0] == mealType[0]
    ensures forall i :: 1 <= i < |r| ==> r[i] == Text.LowerChar(mealType[i])
  {
    if |mealType| == 0 then "" else [mealType[0]] + Text.ToLowerCase(mealType[1..])
  }

  /** Formatting an already formatted meal type changes nothing. */
  lemma FormatMealTypeIdempotent(mealType: string)
    ensures FormatMealType(FormatMealType(mealType)) == FormatMealType(mealType)
  {
    if |mealType| > 0 {
      Text.ToLowerCaseIdempotent(mealType[1..]);
      assert FormatMealType(mealType)[1..] == Text.ToLowerCase(mealType[1..]);
    }
  }

  /** The four meal types are shown as capitalised words. */
  lemma FormatMealTypeNames()
    ensures FormatMealType("BREAKFAST") == "Breakfast"
    ensures FormatMealType("LUNCH") == "Lunch"
    ensures FormatMealType("DINNER") == "Dinner"
    ensures FormatMealType("SNACK") == "Snack"
  {
    FormatsBreakfast();
    FormatsLunch();
    FormatsDinner();
    FormatsSnack();
  }

  lemma FormatsBreakfast()
    ensures FormatMealType("BREAKFAST") == "Breakfast"
  {
    FormatsAs("BREAKFAST", "Breakfast");
  }

  lemma FormatsLunch()
    ensures FormatMealType("LUNCH") == "Lunch"
  {
    FormatsAs("LUNCH", "Lunch");
  }

  lemma FormatsDinner()
    ensures FormatMealType("DINNER") == "Dinner"
  {
    FormatsAs("DINNER", "Dinner");
  }

  lemma FormatsSnack()
    ensures FormatMealType("SNACK") == "Snack"
  {
    FormatsAs("SNACK", "Snack");
  }

  /** An upper-case word formats to its capitalised form when the expected
      text agrees with it character by character. */
  lemma FormatsAs(word: string, shown: string)
    requires |word| == |shown| > 0 && shown[0] == word[0]
    requires forall i :: 1 <= i < |word| ==> shown[i] == Text.LowerChar(word[i])
    ensures FormatMealType(word) == shown
  {
  }

  /** The colour classes of the badge, one per meal type. */
  const BadgeColours: map<string, string> := map[
    "BREAKFAST" := "bg-yellow-100 text-yellow-800",
    "LUNCH" := "bg-green-100 text-green-800",
    "DINNER" := "bg-blue-100 text-blue-800",
    "SNACK" := "bg-purple-100 text-purple-800"
  ]

  /** One `${record.mealType === expected ? colour : ''}` piece of the template. */
  function ColourIf(mealType: string, expected: string, colour: string): (piece: string)
    ensures mealType == expected ==> piece == colour
    ensures mealType != expected ==> piece == ""
  {
    if mealType == expected then colour else ""
  }

  /** The colour part of the badge's class list: four template pieces, each
      contributing its colour when the meal type equals its key and the
      empty string otherwise. */
  function BadgeClass(mealType: string): (c: string)
    ensures mealType in BadgeColours ==> c == BadgeColours[mealType]
    ensures mealType !in BadgeColours ==> c == ""
  {
    assert "BREAKFAST"[0] == 'B' && "LUNCH"[0] == 'L' && "DINNER"[0] == 'D' && "SNACK"[0] == 'S';
    ColourIf(mealType, "BREAKFAST", "bg-yellow-100 text-yellow-800")
    + ColourIf(mealType, "LUNCH", "bg-green-100 text-green-800")
    + ColourIf(mealType, "DINNER", "bg-blue-100 text-blue-800")
    + ColourIf(mealType, "SNACK", "bg-purple-100 text-purple-800")
  }

  /** Only the four meal types get a colour, and no two of them share one. */
  lemma BadgeClassExactlyOne(t: string, u: string)
    ensures BadgeClass(t) != "" <==> t in {"BREAKFAST", "LUNCH", "DINNER", "SNACK"}
    ensures BadgeClass(t) != "" && BadgeClass(t) == BadgeClass(u) ==> t == u
  {
  }
}
