/** The `restaurant_reviews` table: one row per restaurant review a user
    saved. */
module Reviews {
  import opened Requests
  import Users

  /** The declared width of `restaurant_name`, `String(100)`. */
  const RestaurantNameMaxLength: nat := 100

  /** A row. `id` is the primary key; `user_id` is a nullable foreign key
      into `users`; `restaurant_name` is never null; `address`, `rating`
      (a `Numeric`, held exactly as a real) and `review_text` are nullable;
      `visited_at` is the time of insertion. */
  datatype Review = Review(
    id: nat,
    userId: Option<int>,
    restaurantName: string,
    address: Option<string>,
    rating: Option<real>,
    reviewText: Option<string>,
    visitedAt: int)

  /** The invariant of the table: keys distinct and handed out by the
      autoincrement counter (starting at 1, now at `nextId`), and every
      `restaurant_name` within its declared width. */
  ghost predicate TableValid(rs: seq<Review>, nextId: nat)
  {
    && (forall i, j :: 0 <= i < j < |rs| ==> rs[i].id != rs[j].id)
    && nextId >= 1
    && (forall r :: r in rs ==> 1 <= r.id < nextId)
    && (forall r :: r in rs ==> |r.restaurantName| <= RestaurantNameMaxLength)
  }

  /** The foreign key: a non-null `user_id` is the id of some user. */
  ghost predicate OwnersExist(rs: seq<Review>, users: seq<Users.User>)
  {
    forall r :: r in rs && r.userId.Some? ==> Users.HasId(users, r.userId.value)
  }
}
