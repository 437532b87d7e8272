/** The record the reporting page works on, and the two enumerations its sort header uses. */
module FoodEntries {

  datatype Option<T> = None | Some(value: T)

  /** One row of the `food_entries` table. `remainingWeight` is `None` until the second weighing. */
  datatype FoodEntry = FoodEntry(
    id: string,
    date: string,
    mealType: string,
    foodItem: string,
    initialWeight: real,
    remainingWeight: Option<real>)

  /** The five columns the table header offers for sorting. */
  datatype Field = Date | MealType | FoodItem | InitialWeight | RemainingWeight

  datatype Direction = Asc | Desc
}
