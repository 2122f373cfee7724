/** Two review handlers exactly as written, where they differ from the
    behaviour `Routes` gives them: a null body makes `/reviews` (POST)
    raise instead of answering "Missing fields", and a review stored with a
    null rating makes every later `/reviews/<id>` (GET) of its owner raise. */
module RoutesAsWritten {
  import opened Requests
  import opened Hashing
  import opened Users
  import opened Reviews
  import opened Routes

  /** The guard of `/reviews` (POST) as written: `k in data` is evaluated
      with no check that there is a body, which raises on a JSON `null`. */
  function CheckReviewAsWritten(users: seq<User>, body: Option<ReviewBody>): (r: Option<Error>)
  {
    match body
    case None => Some(ServerCrash)
    case Some(_) => CheckReview(users, body)
  }

  /** A `null` body crashes the handler as written, where the other
      handlers, and `Routes.CheckReview`, answer "Missing fields"; on every
      other body the two agree. */
  lemma NullReviewBodyCrashes(users: seq<User>, body: Option<ReviewBody>)
    ensures CheckReviewAsWritten(users, None) == Some(ServerCrash)
    ensures CheckReview(users, None) == Some(MissingFields)
    ensures body.Some? ==> CheckReviewAsWritten(users, body) == CheckReview(users, body)
  {
  }

  /** `/reviews/<id>` (GET) as written: each owned row's rating goes
      through `float(...)`, which raises on a null rating, so the whole
      answer is an error as soon as one owned row has none. */
  function ReviewsOfAsWritten(rs: seq<Review>, userId: nat): (r: Result<seq<ReviewEntry>>)
    ensures r.Ok? <==> forall row :: row in rs && row.userId == Some(userId) ==> row.rating.Some?
    ensures r.Ok? ==> r.value == ReviewsOf(rs, userId)
    ensures r.Err? ==> r.error == ServerCrash
  {
    if rs == [] then Ok([])
    else
      var init, last := rs[..|rs| - 1], rs[|rs| - 1];
      assert rs == init + [last];
      match ReviewsOfAsWritten(init, userId)
      case Err(e) => Err(e)
      case Ok(listed) =>
        if last.userId != Some(userId) then Ok(listed)
        else if last.rating.None? then Err(ServerCrash)
        else Ok(listed + [ReviewEntry(last.id, last.restaurantName, last.address,
                                      Some(last.rating.value), last.reviewText, last.visitedAt)])
  }

  /** The input that shows it: `"rating": null` passes the key-presence
      guard, so the row is stored with a null rating; from then on the
      listing as written crashes, while `Routes.ReviewsOf` lists the row with
      a null rating. */
  lemma NullRatingBreaksReviewList()
    ensures var users := [User(1, "a@x.com", PasswordHash("h"), None, None, None)];
            var body := ReviewBody(Given(1), Given("Cafe"), Given("Main St"), Null, Given("ok"));
            var row := Review(1, Nullable(body.userId), body.restaurantName.value,
                              Nullable(body.address), Nullable(body.rating),
                              Nullable(body.reviewText), 0);
            && CheckReview(users, Some(body)) == None
            && ReviewsOfAsWritten([row], 1) == Err(ServerCrash)
            && ReviewsOf([row], 1) == [ReviewEntry(1, "Cafe", Some("Main St"), None, Some("ok"), 0)]
  {
    var users := [User(1, "a@x.com", PasswordHash("h"), None, None, None)];
    assert users[0] in users;
    var row := Review(1, Some(1), "Cafe", Some("Main St"), None, Some("ok"), 0);
    assert [row][..0] == [];
  }
}
