/** The request handlers of the service over an in-memory database: account
    registration, login and profile lookup over the `users` table, and the
    per-user translation and review histories. */
module Routes {
  import opened Requests
  import opened Hashing
  import opened Users
  import opened Translations
  import opened Reviews

  // ---------------------------------------------------------------------
  // Request bodies and response views

  /** The JSON object posted to `/register`. */
  datatype RegisterBody = RegisterBody(
    email: Field<string>,
    password: Field<string>,
    name: Field<string>,
    surname: Field<string>,
    profileImage: Field<string>)

  /** The JSON object posted to `/login`. */
  datatype LoginBody = LoginBody(email: Field<string>, password: Field<string>)

  /** The JSON object posted to `/translations`. */
  datatype TranslationBody = TranslationBody(
    userId: Field<int>,
    originalText: Field<string>,
    targetLanguage: Field<string>)

  /** The JSON object posted to `/reviews`. */
  datatype ReviewBody = ReviewBody(
    userId: Field<int>,
    restaurantName: Field<string>,
    address: Field<string>,
    rating: Field<real>,
    reviewText: Field<string>)

  /** What `/profile/<id>` answers with: every column but the password. */
  datatype Profile = Profile(
    id: nat,
    email: string,
    name: Option<string>,
    surname: Option<string>,
    profileImage: Option<string>)

  /** One element of the list `/translations/<id>` answers with. */
  datatype TranslationEntry = TranslationEntry(
    id: nat,
    originalText: string,
    targetLanguage: string,
    createdAt: int)

  /** One element of the list `/reviews/<id>` answers with. */
  datatype ReviewEntry = ReviewEntry(
    id: nat,
    restaurantName: string,
    address: Option<string>,
    rating: Option<real>,
    reviewText: Option<string>,
    visitedAt: int)

  // ---------------------------------------------------------------------
  // Accounts

  /** The guard of `/register` and `/login`: a body, with a truthy email and
      a truthy password. An empty dict body has neither key. */
  predicate CredentialsGiven(body: Option<(Field<string>, Field<string>)>)
  {
    body.Some? && Truthy(body.value.0) && Truthy(body.value.1)
  }

  function RegisterCredentials(body: Option<RegisterBody>): Option<(Field<string>, Field<string>)>
  {
    if body.Some? then Some((body.value.email, body.value.password)) else None
  }

  function LoginCredentials(body: Option<LoginBody>): Option<(Field<string>, Field<string>)>
  {
    if body.Some? then Some((body.value.email, body.value.password)) else None
  }

  /** `/login`: the id of the user with exactly the supplied email, when the
      supplied password verifies against that user's stored hash. An unknown
      email and a wrong password give the same answer. */
  function Login(users: seq<User>, hasher: Hasher, body: Option<LoginBody>): (r: Result<nat>)
    ensures r == Err(MissingFields) <==> !CredentialsGiven(LoginCredentials(body))
    ensures r.Err? ==> r.error == MissingFields || r.error == InvalidCredentials
    ensures r.Ok? ==> exists u :: u in users && u.id == r.value
                         && u.email == body.value.email.value
                         && hasher.verify(u.password, body.value.password.value)
    ensures UniqueEmails(users) && CredentialsGiven(LoginCredentials(body)) ==>
              (r.Ok? <==> exists u :: u in users && u.email == body.value.email.value
                                       && hasher.verify(u.password, body.value.password.value))
  {
    if !CredentialsGiven(LoginCredentials(body)) then Err(MissingFields)
    else
      var email, password := body.value.email.value, body.value.password.value;
      match FindByEmail(users, email)
      case None => Err(InvalidCredentials)
      case Some(i) =>
        if hasher.verify(users[i].password, password) then Ok(users[i].id)
        else Err(InvalidCredentials)
  }

  /** `/profile/<id>`: the public columns of the user with that id. */
  function GetProfile(users: seq<User>, userId: nat): (r: Result<Profile>)
    ensures r.Err? <==> !HasId(users, userId)
    ensures r.Err? ==> r.error == NotFound
    ensures r.Ok? ==> exists u :: u in users && u.id == userId
                         && r.value.id == u.id && r.value.email == u.email
                         && r.value.name == u.name && r.value.surname == u.surname
                         && r.value.profileImage == u.profileImage
  {
    match FindById(users, userId)
    case None => Err(NotFound)
    case Some(i) =>
      var u := users[i];
      Ok(Profile(u.id, u.email, u.name, u.surname, u.profileImage))
  }

  // ---------------------------------------------------------------------
  // Translation history

  /** The `k in data` guard of `/translations`: the three keys are present,
      whatever their values (an empty string passes). */
  predicate TranslationKeysPresent(body: Option<TranslationBody>)
  {
    body.Some? && !body.value.userId.Absent? && !body.value.originalText.Absent?
    && !body.value.targetLanguage.Absent?
  }

  /** Whether the row a body describes satisfies the column declarations of
      `translation_history`: non-null text and language, the language within
      its width, and an owner that exists when one is given. */
  predicate TranslationRowAllowed(users: seq<User>, b: TranslationBody)
  {
    && b.originalText.Given?
    && b.targetLanguage.Given?
    && |b.targetLanguage.value| <= TargetLanguageMaxLength
    && (b.userId.Given? ==> HasId(users, b.userId.value))
  }

  /** The verdict on a `/translations` body, `None` when it is stored. */
  function CheckTranslation(users: seq<User>, body: Option<TranslationBody>): (r: Option<Error>)
    ensures r == Some(MissingFields) <==> !TranslationKeysPresent(body)
    ensures r == None <==> TranslationKeysPresent(body) && TranslationRowAllowed(users, body.value)
    ensures r.Some? ==> r.value == MissingFields || r.value == IntegrityViolation
  {
    if !TranslationKeysPresent(body) then Some(MissingFields)
    else if !TranslationRowAllowed(users, body.value) then Some(IntegrityViolation)
    else None
  }

  function TranslationEntryOf(t: Translation): TranslationEntry
  {
    TranslationEntry(t.id, t.originalText, t.targetLanguage, t.createdAt)
  }

  /** The entries `/translations/<id>` answers with, in table order: one per
      row owned by `userId`. */
  function TranslationsOf(ts: seq<Translation>, userId: nat): (listed: seq<TranslationEntry>)
  {
    if ts == [] then []
    else
      var last := ts[|ts| - 1];
      TranslationsOf(ts[..|ts| - 1], userId)
        + (if last.userId == Some(userId) then [TranslationEntryOf(last)] else [])
  }

  /** An entry is listed exactly when some row owned by the user gives it;
      so the list is empty exactly when the user owns no row. */
  lemma {:induction false} TranslationsOfMembers(ts: seq<Translation>, userId: nat, e: TranslationEntry)
    ensures e in TranslationsOf(ts, userId) <==>
              exists t :: t in ts && t.userId == Some(userId) && e == TranslationEntryOf(t)
    ensures TranslationsOf(ts, userId) == [] <==> forall t :: t in ts ==> t.userId != Some(userId)
  {
    if ts != [] {
      var init, last := ts[..|ts| - 1], ts[|ts| - 1];
      assert ts == init + [last];
      TranslationsOfMembers(init, userId, e);
      if TranslationsOf(ts, userId) == [] {
        assert TranslationsOf(init, userId) == [] && last.userId != Some(userId);
      }
    }
  }

  /** Listing a table split in two lists the first part and then the
      second: adding rows never changes the entries already listed. */
  lemma {:induction false} TranslationsOfConcat(ts: seq<Translation>, more: seq<Translation>, userId: nat)
    ensures TranslationsOf(ts + more, userId) == TranslationsOf(ts, userId) + TranslationsOf(more, userId)
  {
    if more != [] {
      var init, last := more[..|more| - 1], more[|more| - 1];
      var tail := if last.userId == Some(userId) then [TranslationEntryOf(last)] else [];
      assert (ts + more)[..|ts + more| - 1] == ts + init;
      assert (ts + more)[|ts + more| - 1] == last;
      calc {
        TranslationsOf(ts + more, userId);
        TranslationsOf(ts + init, userId) + tail;
        { TranslationsOfConcat(ts, init, userId); }
        TranslationsOf(ts, userId) + TranslationsOf(init, userId) + tail;
        TranslationsOf(ts, userId) + TranslationsOf(more, userId);
      }
    } else {
      assert ts + more == ts;
    }
  }

  /** The number of rows of `ts` owned by `userId`, counted from the front. */
  function OwnedTranslations(ts: seq<Translation>, userId: nat): (count: nat)
  {
    if ts == [] then 0
    else (if ts[0].userId == Some(userId) then 1 else 0) + OwnedTranslations(ts[1..], userId)
  }

  /** The listing has exactly one entry per row the user owns. */
  lemma {:induction false} TranslationsOfCount(ts: seq<Translation>, userId: nat)
    ensures |TranslationsOf(ts, userId)| == OwnedTranslations(ts, userId)
  {
    if ts != [] {
      assert ts == [ts[0]] + ts[1..];
      TranslationsOfConcat([ts[0]], ts[1..], userId);
      assert [ts[0]][..0] == [];
      TranslationsOfCount(ts[1..], userId);
    }
  }

  // ---------------------------------------------------------------------
  // Review history

  /** The `k in data` guard of `/reviews`: all five keys are present,
      whatever their values. A null body is answered with "Missing fields"
      here; see `RoutesAsWritten.CheckReviewAsWritten` for the handler as
      written. */
  predicate ReviewKeysPresent(body: Option<ReviewBody>)
  {
    body.Some? && !body.value.userId.Absent? && !body.value.restaurantName.Absent?
    && !body.value.address.Absent? && !body.value.rating.Absent?
    && !body.value.reviewText.Absent?
  }

  /** Whether the row a body describes satisfies the column declarations of
      `restaurant_reviews`: a non-null restaurant name within its width, and
      an owner that exists when one is given. */
  predicate ReviewRowAllowed(users: seq<User>, b: ReviewBody)
  {
    && b.restaurantName.Given?
    && |b.restaurantName.value| <= RestaurantNameMaxLength
    && (b.userId.Given? ==> HasId(users, b.userId.value))
  }

  /** The verdict on a `/reviews` body, `None` when it is stored. */
  function CheckReview(users: seq<User>, body: Option<ReviewBody>): (r: Option<Error>)
    ensures r == Some(MissingFields) <==> !ReviewKeysPresent(body)
    ensures r == None <==> ReviewKeysPresent(body) && ReviewRowAllowed(users, body.value)
    ensures r.Some? ==> r.value == MissingFields || r.value == IntegrityViolation
  {
    if !ReviewKeysPresent(body) then Some(MissingFields)
    else if !ReviewRowAllowed(users, body.value) then Some(IntegrityViolation)
    else None
  }

  function ReviewEntryOf(r: Review): ReviewEntry
  {
    ReviewEntry(r.id, r.restaurantName, r.address, r.rating, r.reviewText, r.visitedAt)
  }

  /** The entries `/reviews/<id>` answers with, in table order: one per row
      owned by `userId`, a null rating passed on as null. */
  function ReviewsOf(rs: seq<Review>, userId: nat): (listed: seq<ReviewEntry>)
  {
    if rs == [] then []
    else
      var last := rs[|rs| - 1];
      ReviewsOf(rs[..|rs| - 1], userId)
        + (if last.userId == Some(userId) then [ReviewEntryOf(last)] else [])
  }

  /** An entry is listed exactly when some row owned by the user gives it;
      so the list is empty exactly when the user owns no row. */
  lemma {:induction false} ReviewsOfMembers(rs: seq<Review>, userId: nat, e: ReviewEntry)
    ensures e in ReviewsOf(rs, userId) <==>
              exists r :: r in rs && r.userId == Some(userId) && e == ReviewEntryOf(r)
    ensures ReviewsOf(rs, userId) == [] <==> forall r :: r in rs ==> r.userId != Some(userId)
  {
    if rs != [] {
      var init, last := rs[..|rs| - 1], rs[|rs| - 1];
      assert rs == init + [last];
      ReviewsOfMembers(init, userId, e);
      if ReviewsOf(rs, userId) == [] {
        assert ReviewsOf(init, userId) == [] && last.userId != Some(userId);
      }
    }
  }

  /** Listing a table split in two lists the first part and then the
      second: adding rows never changes the entries already listed. */
  lemma {:induction false} ReviewsOfConcat(rs: seq<Review>, more: seq<Review>, userId: nat)
    ensures ReviewsOf(rs + more, userId) == ReviewsOf(rs, userId) + ReviewsOf(more, userId)
  {
    if more != [] {
      var init, last := more[..|more| - 1], more[|more| - 1];
      var tail := if last.userId == Some(userId) then [ReviewEntryOf(last)] else [];
      assert (rs + more)[..|rs + more| - 1] == rs + init;
      assert (rs + more)[|rs + more| - 1] == last;
      calc {
        ReviewsOf(rs + more, userId);
        ReviewsOf(rs + init, userId) + tail;
        { ReviewsOfConcat(rs, init, userId); }
        ReviewsOf(rs, userId) + ReviewsOf(init, userId) + tail;
        ReviewsOf(rs, userId) + ReviewsOf(more, userId);
      }
    } else {
      assert rs + more == rs;
    }
  }

  /** The number of rows of `rs` owned by `userId`, counted from the front. */
  function OwnedReviews(rs: seq<Review>, userId: nat): (count: nat)
  {
    if rs == [] then 0
    else (if rs[0].userId == Some(userId) then 1 else 0) + OwnedReviews(rs[1..], userId)
  }

  /** The listing has exactly one entry per row the user owns. */
  lemma {:induction false} ReviewsOfCount(rs: seq<Review>, userId: nat)
    ensures |ReviewsOf(rs, userId)| == OwnedReviews(rs, userId)
  {
    if rs != [] {
      assert rs == [rs[0]] + rs[1..];
      ReviewsOfConcat([rs[0]], rs[1..], userId);
      assert [rs[0]][..0] == [];
      ReviewsOfCount(rs[1..], userId);
    }
  }

  // ---------------------------------------------------------------------
  // The database the handlers share

  class Database {
    /** The hashing primitive, fixed for the life of the process. */
    const hasher: Hasher

    var users: seq<User>
    var nextUserId: nat
    var translations: seq<Translation>
    var nextTranslationId: nat
    var reviews: seq<Review>
    var nextReviewId: nat

    /** The column declarations of the three tables, and the foreign keys
        from both histories into `users`. */
    ghost predicate Valid()
      reads this
    {
      && Users.TableValid(users, nextUserId)
      && Translations.TableValid(translations, nextTranslationId)
      && Reviews.TableValid(reviews, nextReviewId)
      && Translations.OwnersExist(translations, users)
      && Reviews.OwnersExist(reviews, users)
    }

    /** Empty tables, each counter at 1. */
    constructor (hasher: Hasher)
      ensures Valid() && this.hasher == hasher
      ensures users == [] && translations == [] && reviews == []
      ensures nextUserId == 1 && nextTranslationId == 1 && nextReviewId == 1
    {
      this.hasher := hasher;
      users, nextUserId := [], 1;
      translations, nextTranslationId := [], 1;
      reviews, nextReviewId := [], 1;
    }

    /** `/register`. `salt` is the random salt the hashing draws. A missing
        field or a taken email leaves every table as it was; otherwise
        exactly one row is added, with a fresh id, the hash of the supplied
        password, and "" for each optional column whose key is missing. */
    method Register(body: Option<RegisterBody>, salt: string) returns (r: Result<()>)
      requires Valid()
      modifies this
      ensures Valid()
      ensures translations == old(translations) && nextTranslationId == old(nextTranslationId)
      ensures reviews == old(reviews) && nextReviewId == old(nextReviewId)
      ensures !CredentialsGiven(RegisterCredentials(body)) ==> r == Err(MissingFields)
      ensures (CredentialsGiven(RegisterCredentials(body))
                 && FindByEmail(old(users), body.value.email.value).Some?) ==> r == Err(AlreadyExists)
      ensures r.Err? ==> users == old(users) && nextUserId == old(nextUserId)
      ensures (CredentialsGiven(RegisterCredentials(body))
                 && FindByEmail(old(users), body.value.email.value).None?) ==>
                && r == Ok(())
                && users == old(users) + [User(old(nextUserId),
                                               body.value.email.value,
                                               hasher.hash(body.value.password.value, salt),
                                               GetOr(body.value.name, ""),
                                               GetOr(body.value.surname, ""),
                                               GetOr(body.value.profileImage, ""))]
                && nextUserId == old(nextUserId) + 1
      ensures r.Ok? ==> forall u :: u in old(users) ==> u.id != users[|users| - 1].id
    {
      if !CredentialsGiven(RegisterCredentials(body)) {
        return Err(MissingFields);
      }
      var b := body.value;
      if FindByEmail(users, b.email.value).Some? {
        return Err(AlreadyExists);
      }
      var hashed := hasher.hash(b.password.value, salt);
      var u := User(nextUserId, b.email.value, hashed,
                    GetOr(b.name, ""), GetOr(b.surname, ""), GetOr(b.profileImage, ""));
      AppendKeepsTableValid(users, nextUserId, u);
      users, nextUserId := users + [u], nextUserId + 1;
      r := Ok(());
    }

    /** `/translations` (POST). A body that lacks a key, or whose row the
        column declarations refuse, leaves every table as it was; otherwise
        exactly one row is added with a fresh id, the given columns and the
        time `now`. */
    method AddTranslation(body: Option<TranslationBody>, now: int) returns (r: Result<()>)
      requires Valid()
      modifies this
      ensures Valid()
      ensures users == old(users) && nextUserId == old(nextUserId)
      ensures reviews == old(reviews) && nextReviewId == old(nextReviewId)
      ensures r.Err? <==> CheckTranslation(users, body).Some?
      ensures r.Err? ==> && r.error == CheckTranslation(users, body).value
                         && translations == old(translations)
                         && nextTranslationId == old(nextTranslationId)
      ensures r.Ok? ==>
                && translations == old(translations) + [Translation(old(nextTranslationId),
                                                                     Nullable(body.value.userId),
                                                                     body.value.originalText.value,
                                                                     body.value.targetLanguage.value,
                                                                     now)]
                && nextTranslationId == old(nextTranslationId) + 1
    {
      var verdict := CheckTranslation(users, body);
      if verdict.Some? {
        return Err(verdict.value);
      }
      var b := body.value;
      var t := Translation(nextTranslationId, Nullable(b.userId),
                           b.originalText.value, b.targetLanguage.value, now);
      translations, nextTranslationId := translations + [t], nextTranslationId + 1;
      r := Ok(());
    }

    /** `/translations/<id>` (GET): walks the table and lists the rows the
        user owns; an empty list when there are none. */
    method GetTranslations(userId: nat) returns (result: seq<TranslationEntry>)
      ensures result == TranslationsOf(translations, userId)
    {
      result := [];
      var i := 0;
      while i < |translations|
        invariant 0 <= i <= |translations|
        invariant result == TranslationsOf(translations[..i], userId)
      {
        var t := translations[i];
        assert translations[..i + 1][..i] == translations[..i];
        if t.userId == Some(userId) {
          result := result + [TranslationEntryOf(t)];
        }
        i := i + 1;
      }
      assert translations[..i] == translations;
    }

    /** `/reviews` (POST). A null body or one that lacks a key, or whose row
        the column declarations refuse, leaves every table as it was;
        otherwise exactly one row is added with a fresh id, the given columns
        and the time `now`. */
    method AddReview(body: Option<ReviewBody>, now: int) returns (r: Result<()>)
      requires Valid()
      modifies this
      ensures Valid()
      ensures users == old(users) && nextUserId == old(nextUserId)
      ensures translations == old(translations) && nextTranslationId == old(nextTranslationId)
      ensures r.Err? <==> CheckReview(users, body).Some?
      ensures r.Err? ==> && r.error == CheckReview(users, body).value
                         && reviews == old(reviews)
                         && nextReviewId == old(nextReviewId)
      ensures r.Ok? ==>
                && reviews == old(reviews) + [Review(old(nextReviewId),
                                                     Nullable(body.value.userId),
                                                     body.value.restaurantName.value,
                                                     Nullable(body.value.address),
                                                     Nullable(body.value.rating),
                                                     Nullable(body.value.reviewText),
                                                     now)]
                && nextReviewId == old(nextReviewId) + 1
    {
      var verdict := CheckReview(users, body);
      if verdict.Some? {
        return Err(verdict.value);
      }
      var b := body.value;
      var row := Review(nextReviewId, Nullable(b.userId), b.restaurantName.value,
                        Nullable(b.address), Nullable(b.rating), Nullable(b.reviewText), now);
      reviews, nextReviewId := reviews + [row], nextReviewId + 1;
      r := Ok(());
    }

    /** `/reviews/<id>` (GET): walks the table and lists the rows the user
        owns; an empty list when there are none. */
    method GetReviews(userId: nat) returns (result: seq<ReviewEntry>)
      ensures result == ReviewsOf(reviews, userId)
    {
      result := [];
      var i := 0;
      while i < |reviews|
        invariant 0 <= i <= |reviews|
        invariant result == ReviewsOf(reviews[..i], userId)
      {
        var row := reviews[i];
        assert reviews[..i + 1][..i] == reviews[..i];
        if row.userId == Some(userId) {
          result := result + [ReviewEntryOf(row)];
        }
        i := i + 1;
      }
      assert reviews[..i] == reviews;
    }
  }

  // ---------------------------------------------------------------------
  // Properties across operations

  /** After a registration stores a user, logging in with the same email
      and password yields that user's id. */
  lemma LoginAfterRegister(users: seq<User>, hasher: Hasher, u: User, password: string, salt: string)
    requires Sound(hasher) && UniqueEmails(users)
    requires FindByEmail(users, u.email).None?
    requires u.email != "" && password != ""
    requires u.password == hasher.hash(password, salt)
    ensures Login(users + [u], hasher, Some(LoginBody(Given(u.email), Given(password)))) == Ok(u.id)
  {
    FindByEmailAppend(users, u, u.email);
  }

  /** With a hash that verifies only its own password, every other password
      is refused with the same answer as an unknown email, the empty string
      included. */
  lemma WrongPasswordRefused(users: seq<User>, hasher: Hasher, u: User, password: string,
                             salt: string, other: string)
    requires CollisionFree(hasher) && UniqueEmails(users)
    requires u in users && u.password == hasher.hash(password, salt)
    requires other != password
    ensures Login(users, hasher, Some(LoginBody(Given(u.email), Given(other)))) ==
              if u.email == "" || other == "" then Err(MissingFields) else Err(InvalidCredentials)
  {
  }

  /** A new row with a fresh id is found by its id, and what is answered
      leaves the password out. */
  lemma ProfileAfterRegister(users: seq<User>, u: User)
    requires forall v :: v in users ==> v.id != u.id
    ensures GetProfile(users + [u], u.id) == Ok(Profile(u.id, u.email, u.name, u.surname, u.profileImage))
  {
    assert u in users + [u];
    var r := GetProfile(users + [u], u.id);
    assert r.Ok?;
  }

  /** After a translation is stored, its owner's list is the old list with
      the new entry at the end, and every other user's list is unchanged. */
  lemma TranslationListedAfterAdd(ts: seq<Translation>, t: Translation, userId: nat)
    ensures TranslationsOf(ts + [t], userId) ==
              TranslationsOf(ts, userId) + (if t.userId == Some(userId) then [TranslationEntryOf(t)] else [])
  {
    TranslationsOfConcat(ts, [t], userId);
    assert [t][..0] == [];
  }

  /** After a review is stored, its owner's list is the old list with the
      new entry at the end, and every other user's list is unchanged. */
  lemma ReviewListedAfterAdd(rs: seq<Review>, r: Review, userId: nat)
    ensures ReviewsOf(rs + [r], userId) ==
              ReviewsOf(rs, userId) + (if r.userId == Some(userId) then [ReviewEntryOf(r)] else [])
  {
    ReviewsOfConcat(rs, [r], userId);
    assert [r][..0] == [];
  }

  /** A client of the handlers: on a fresh database, a registration
      succeeds and gives id 1, the same credentials then log in as that id,
      a wrong password is refused, and registering the email again is
      refused without adding a row. */
  method RegistrationScenario(hasher: Hasher, salt: string)
    returns (first: Result<()>, login: Result<nat>, wrong: Result<nat>, second: Result<()>, count: nat)
    requires Sound(hasher) && CollisionFree(hasher)
    ensures first == Ok(()) && login == Ok(1) && wrong == Err(InvalidCredentials)
    ensures second == Err(AlreadyExists) && count == 1
  {
    var db := new Database(hasher);
    var body := RegisterBody(Given("alice@x.com"), Given("pw1"), Absent, Absent, Absent);
    first := db.Register(Some(body), salt);
    var alice := db.users[0];
    LoginAfterRegister([], hasher, alice, "pw1", salt);
    assert db.users == [] + [alice];
    login := Login(db.users, hasher, Some(LoginBody(Given("alice@x.com"), Given("pw1"))));
    WrongPasswordRefused(db.users, hasher, alice, "pw1", salt, "wrong");
    wrong := Login(db.users, hasher, Some(LoginBody(Given("alice@x.com"), Given("wrong"))));
    second := db.Register(Some(body), salt);
    count := |db.users|;
  }
}
